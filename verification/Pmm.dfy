/** kernel/pmm.c: the bitmap allocator of physical page frames.

    A frame is named by its number; the address the C code hands out is the
    number times PAGE_SIZE, so frame 0 is the null pointer. */
module Pmm {
  import opened Words

  /** The memory map entry handed over by UEFI, with the fields the kernel reads. */
  datatype Descriptor = Descriptor(kind: nat, start: nat, pages: nat)

  /** What pmm_init reads besides the memory map: where the kernel image and the
      page-table arena end, the framebuffer and the RSDP. */
  datatype Boot = Boot(kernelEnd: nat, arenaEnd: nat, framebuffer: nat, fbBytes: nat, rsdp: nat)

  const KERNEL_PHYS_BASE: nat := 0x100000
  const CONVENTIONAL: nat := 7

  // ---------------------------------------------------------------- ranges

  predicate IsPage(p: int) { 0 <= p }

  /** The pages lo, lo + 1, .., hi - 1. */
  function Pages(lo: nat, hi: nat): set<nat> {
    set p: nat | lo <= p < hi && IsPage(p)
  }

  lemma {:induction false} PagesSize(lo: nat, hi: nat)
    requires lo <= hi
    ensures |Pages(lo, hi)| == hi - lo
    decreases hi
  {
    if lo < hi {
      PagesSize(lo, hi - 1);
      assert Pages(lo, hi) == Pages(lo, hi - 1) + {hi - 1};
    }
  }

  lemma Minus<T>(a: set<T>, b: set<T>, c: set<T>)
    ensures a - b - c == a - (b + c)
  {
  }

  lemma NextPage(a: set<nat>, lo: nat, p: nat)
    requires lo <= p
    ensures a - Pages(lo, p) - {p} == a - Pages(lo, p + 1)
  {
  }

  /** The pages touched by the byte range [start, start + bytes). */
  function Touched(start: nat, bytes: nat): set<nat> {
    if bytes == 0 then {} else Pages(start / PAGE_SIZE, (start + bytes + PAGE_SIZE - 1) / PAGE_SIZE)
  }

  lemma TouchedMeaning(start: nat, bytes: nat, p: nat)
    ensures p in Touched(start, bytes) <==> exists b :: start <= b < start + bytes && b / PAGE_SIZE == p
  {
    if p in Touched(start, bytes) {
      var b := if p * PAGE_SIZE < start then start else p * PAGE_SIZE;
      assert start <= b < start + bytes && b / PAGE_SIZE == p;
    }
  }

  // ---------------------------------------------------------- the memory map

  function DescPages(d: Descriptor): set<nat> {
    Pages(d.start / PAGE_SIZE, d.start / PAGE_SIZE + d.pages)
  }

  function End(d: Descriptor): nat {
    d.start + d.pages * PAGE_SIZE
  }

  function MaxEnd(m: seq<Descriptor>): nat {
    if m == [] then 0
    else var r := MaxEnd(m[..|m| - 1]); var e := End(m[|m| - 1]); if e > r then e else r
  }

  /** The pages of all conventional-memory descriptors. */
  function Conventional(m: seq<Descriptor>): set<nat> {
    if m == [] then {}
    else
      var d := m[|m| - 1];
      Conventional(m[..|m| - 1]) + if d.kind == CONVENTIONAL then DescPages(d) else {}
  }

  /** The sum of the page counts of all conventional-memory descriptors. */
  function ConventionalCount(m: seq<Descriptor>): nat {
    if m == [] then 0
    else
      var d := m[|m| - 1];
      ConventionalCount(m[..|m| - 1]) + if d.kind == CONVENTIONAL then d.pages else 0
  }

  predicate FirmwareOwned(d: Descriptor) {
    d.kind == 5 || d.kind == 6 || d.kind == 9 || d.kind == 10 || d.kind == 11
  }

  /** The pages of the ACPI, runtime-service and MMIO descriptors. */
  function Firmware(m: seq<Descriptor>): set<nat> {
    if m == [] then {}
    else
      var d := m[|m| - 1];
      Firmware(m[..|m| - 1]) + if FirmwareOwned(d) then Touched(d.start, d.pages * PAGE_SIZE) else {}
  }

  lemma FirmwareNext(a: set<nat>, m: seq<Descriptor>, i: nat)
    requires i < |m|
    ensures FirmwareOwned(m[i]) ==>
              a - Firmware(m[..i + 1]) == a - Firmware(m[..i]) - Touched(m[i].start, m[i].pages * PAGE_SIZE)
    ensures !FirmwareOwned(m[i]) ==> Firmware(m[..i + 1]) == Firmware(m[..i])
  {
    assert m[..i + 1][..i] == m[..i];
  }

  function CeilPage(a: nat): nat {
    (a + PAGE_SIZE - 1) / PAGE_SIZE
  }

  function KernelPages(b: Boot): set<nat> { Pages(KERNEL_PHYS_BASE / PAGE_SIZE, CeilPage(b.kernelEnd)) }

  function ArenaPages(b: Boot): set<nat> { Pages(CeilPage(b.kernelEnd), b.arenaEnd / PAGE_SIZE) }

  function BitmapPages(b: Boot, total: nat): set<nat> {
    Pages(b.arenaEnd / PAGE_SIZE, CeilPage(b.arenaEnd + (total + 7) / 8))
  }

  /** Kernel image, page tables, bitmap and the low 64 KiB. */
  function ReservedLow(b: Boot, total: nat): set<nat> {
    KernelPages(b) + ArenaPages(b) + BitmapPages(b, total) + Pages(0, 16)
  }

  /** Everything pmm_init takes back after freeing conventional memory. */
  function Reserved(m: seq<Descriptor>, b: Boot, total: nat): set<nat> {
    ReservedLow(b, total) + Touched(b.framebuffer, b.fbBytes) + Touched(b.rsdp, PAGE_SIZE) + Firmware(m)
  }

  predicate Disjoint(m: seq<Descriptor>) {
    forall i, j :: 0 <= i < j < |m| && m[i].kind == CONVENTIONAL && m[j].kind == CONVENTIONAL
                   ==> DescPages(m[i]) !! DescPages(m[j])
  }

  /** A page that two descriptors hold is counted twice. */
  lemma CountedTwice()
    ensures var d := Descriptor(CONVENTIONAL, 0x100000, 1);
            Conventional([d, d]) == {0x100} && ConventionalCount([d, d]) == 2
  {
    var d := Descriptor(CONVENTIONAL, 0x100000, 1);
    assert [d, d][..1] == [d] && [d][..0] == [];
    assert DescPages(d) == {0x100} by { assert IsPage(0x100); }
    assert Conventional([d]) == {0x100} && ConventionalCount([d]) == 1;
  }

  lemma {:induction false} InConventional(m: seq<Descriptor>, p: nat)
    ensures p in Conventional(m) <==> exists i :: 0 <= i < |m| && m[i].kind == CONVENTIONAL && p in DescPages(m[i])
  {
    if m != [] {
      var n := m[..|m| - 1];
      InConventional(n, p);
      assert forall i :: 0 <= i < |n| ==> m[i] == n[i];
    }
  }

  lemma {:induction false} ConventionalBounds(m: seq<Descriptor>)
    ensures |Conventional(m)| <= ConventionalCount(m)
    ensures forall p :: p in Conventional(m) ==> p < MaxEnd(m) / PAGE_SIZE
  {
    if m != [] {
      var n, d := m[..|m| - 1], m[|m| - 1];
      ConventionalBounds(n);
      PagesSize(d.start / PAGE_SIZE, d.start / PAGE_SIZE + d.pages);
      UnionSize(Conventional(n), DescPages(d));
      assert MaxEnd(m) >= MaxEnd(n) && MaxEnd(m) >= End(d);
      assert End(d) / PAGE_SIZE == d.start / PAGE_SIZE + d.pages;
    }
  }

  lemma UnionSize<T>(a: set<T>, b: set<T>)
    ensures |a + b| <= |a| + |b|
    ensures |a + b| == |a| + |b| <==> a !! b
  {
    assert a + b == a + (b - a);
    assert a !! (b - a);
    assert b == (b - a) + (a * b);
    assert |b| == |b - a| + |a * b|;
    if |a * b| == 0 { assert a * b == {}; }
  }

  lemma DisjointStep(m: seq<Descriptor>)
    requires m != []
    ensures var n, d := m[..|m| - 1], m[|m| - 1];
            Disjoint(m) <==> Disjoint(n) && (d.kind == CONVENTIONAL ==> Conventional(n) !! DescPages(d))
  {
    var n, d := m[..|m| - 1], m[|m| - 1];
    assert forall i :: 0 <= i < |n| ==> n[i] == m[i];
    if Disjoint(m) && d.kind == CONVENTIONAL {
      forall p | p in Conventional(n) ensures p !in DescPages(d) { InConventional(n, p); }
    }
    if d.kind == CONVENTIONAL && Conventional(n) !! DescPages(d) {
      forall i | 0 <= i < |n| && n[i].kind == CONVENTIONAL ensures DescPages(n[i]) !! DescPages(d) {
        forall p | p in DescPages(n[i]) ensures p !in DescPages(d) { InConventional(n, p); }
      }
    }
  }

  /** The count pmm_init accumulates is the number of distinct pages exactly when
      no two conventional descriptors share a page. */
  lemma {:induction false} CountIffDisjoint(m: seq<Descriptor>)
    ensures ConventionalCount(m) == |Conventional(m)| <==> Disjoint(m)
  {
    if m != [] {
      var n, d := m[..|m| - 1], m[|m| - 1];
      CountIffDisjoint(n);
      ConventionalBounds(n);
      PagesSize(d.start / PAGE_SIZE, d.start / PAGE_SIZE + d.pages);
      UnionSize(Conventional(n), DescPages(d));
      DisjointStep(m);
    }
  }

  // ---------------------------------------------------------------- the bits

  /** 1 << k */
  function Mask(k: nat): bv8
    requires k < 8
  {
    if k == 0 then 0x01 else if k == 1 then 0x02 else if k == 2 then 0x04 else if k == 3 then 0x08
    else if k == 4 then 0x10 else if k == 5 then 0x20 else if k == 6 then 0x40 else 0x80
  }

  lemma MaskBits(b: bv8, k: nat, j: nat)
    requires k < 8 && j < 8
    ensures (b | Mask(k)) & Mask(j) != 0 <==> j == k || b & Mask(j) != 0
    ensures (b & !Mask(k)) & Mask(j) != 0 <==> j != k && b & Mask(j) != 0
    ensures 0xFF & Mask(j) != 0
  {
  }

  function Bit(bits: seq<bv8>, page: nat): bool
    requires page < 8 * |bits|
  {
    bits[page / 8] & Mask(page % 8) != 0
  }

  lemma SetBit(bits: seq<bv8>, page: nat, q: nat)
    requires page < 8 * |bits| && q < 8 * |bits|
    ensures Bit(bits[page / 8 := bits[page / 8] | Mask(page % 8)], q) <==> q == page || Bit(bits, q)
    ensures Bit(bits[page / 8 := bits[page / 8] & !Mask(page % 8)], q) <==> q != page && Bit(bits, q)
  {
    if page / 8 == q / 8 {
      MaskBits(bits[page / 8], page % 8, q % 8);
      assert page == 8 * (page / 8) + page % 8 && q == 8 * (q / 8) + q % 8;
      assert q == page <==> q % 8 == page % 8;
    }
  }

  /** The clear bits below total are those of the set free. */
  ghost predicate Stores(bits: seq<bv8>, total: nat, free: set<nat>) {
    && total <= 8 * |bits|
    && (forall p :: p in free ==> p < total)
    && (forall p {:trigger Bit(bits, p)} :: 0 <= p < total ==> (p in free <==> !Bit(bits, p)))
  }

  lemma RepAfter(was: seq<bv8>, now: seq<bv8>, total: nat, free: set<nat>, page: nat)
    requires Stores(was, total, free) && page < total
    ensures now == was[page / 8 := was[page / 8] | Mask(page % 8)] ==> Stores(now, total, free - {page})
    ensures now == was[page / 8 := was[page / 8] & !Mask(page % 8)] ==> Stores(now, total, free + {page})
  {
    forall q | 0 <= q < total
      ensures now == was[page / 8 := was[page / 8] | Mask(page % 8)] ==> (Bit(now, q) <==> q !in free - {page})
      ensures now == was[page / 8 := was[page / 8] & !Mask(page % 8)] ==> (Bit(now, q) <==> q !in free + {page})
    {
      SetBit(was, page, q);
    }
  }

  lemma AllOnes(bits: seq<bv8>, total: nat)
    requires total <= 8 * |bits| && forall k :: 0 <= k < |bits| ==> bits[k] == 0xFF
    ensures Stores(bits, total, {})
  {
    forall q | 0 <= q < total ensures Bit(bits, q) { MaskBits(0, 0, q % 8); }
  }

  /** The first loop of pmm_init: where the memory map ends. */
  // ------------------------------------------------- what is free, byte by byte

  function PageOf(a: nat): nat { a / PAGE_SIZE }

  /** Page p holds a byte of [lo, hi). */
  ghost predicate HoldsByte(p: nat, lo: nat, hi: nat) {
    exists a: nat :: lo <= a < hi && PageOf(a) == p
  }

  lemma HoldsIff(p: nat, lo: nat, hi: nat)
    ensures HoldsByte(p, lo, hi) <==> lo < hi && lo < (p + 1) * PAGE_SIZE && p * PAGE_SIZE < hi
  {
    if lo < hi && lo < (p + 1) * PAGE_SIZE && p * PAGE_SIZE < hi {
      assert PageOf(if p * PAGE_SIZE < lo then lo else p * PAGE_SIZE) == p;
    }
  }

  /** Page p is one of a conventional descriptor. */
  ghost predicate IsRam(m: seq<Descriptor>, p: nat) {
    exists i :: 0 <= i < |m| && m[i].kind == 7 && PageOf(m[i].start) <= p < PageOf(m[i].start) + m[i].pages
  }

  /** Page p holds a byte of an ACPI, runtime-service or MMIO descriptor. */
  ghost predicate IsFirmware(m: seq<Descriptor>, p: nat) {
    exists i :: 0 <= i < |m| && m[i].kind in {5, 6, 9, 10, 11}
                && HoldsByte(p, m[i].start, m[i].start + m[i].pages * PAGE_SIZE)
  }

  /** Page p holds a byte of the kernel image, of the bitmap with its size bytes, of the low
      64 KiB, of the framebuffer, of the RSDP's page of bytes or of firmware, or lies in the
      page-table arena. */
  ghost predicate Occupied(m: seq<Descriptor>, b: Boot, size: nat, p: nat) {
    || HoldsByte(p, 0x100000, b.kernelEnd) || (b.kernelEnd <= p * PAGE_SIZE && (p + 1) * PAGE_SIZE <= b.arenaEnd)
    || HoldsByte(p, b.arenaEnd, b.arenaEnd + size) || HoldsByte(p, 0, 0x10000)
    || HoldsByte(p, b.framebuffer, b.framebuffer + b.fbBytes) || HoldsByte(p, b.rsdp, b.rsdp + PAGE_SIZE)
    || IsFirmware(m, p)
  }

  lemma InPages(lo: nat, hi: nat, p: nat)
    ensures p in Pages(lo, hi) <==> lo <= p < hi
  {
    assert IsPage(p);
  }

  lemma TouchedHolds(start: nat, bytes: nat, p: nat)
    ensures p in Touched(start, bytes) <==> HoldsByte(p, start, start + bytes)
  {
    HoldsIff(p, start, start + bytes);
    InPages(start / PAGE_SIZE, (start + bytes + PAGE_SIZE - 1) / PAGE_SIZE, p);
    hide Pages, HoldsByte;
  }

  lemma LowHolds(b: Boot, total: nat, p: nat)
    requires total > 0
    ensures p in ReservedLow(b, total) <==>
            || HoldsByte(p, 0x100000, b.kernelEnd)
            || (b.kernelEnd <= p * PAGE_SIZE && (p + 1) * PAGE_SIZE <= b.arenaEnd)
            || HoldsByte(p, b.arenaEnd, b.arenaEnd + (total + 7) / 8) || HoldsByte(p, 0, 0x10000)
  {
    HoldsIff(p, 0x100000, b.kernelEnd);
    HoldsIff(p, b.arenaEnd, b.arenaEnd + (total + 7) / 8);
    HoldsIff(p, 0, 0x10000);
    InPages(KERNEL_PHYS_BASE / PAGE_SIZE, CeilPage(b.kernelEnd), p);
    InPages(CeilPage(b.kernelEnd), b.arenaEnd / PAGE_SIZE, p);
    InPages(b.arenaEnd / PAGE_SIZE, CeilPage(b.arenaEnd + (total + 7) / 8), p);
    InPages(0, 16, p);
    hide Pages, HoldsByte;
  }

  lemma {:induction false} FirmwareHolds(m: seq<Descriptor>, p: nat)
    ensures p in Firmware(m) <==> IsFirmware(m, p)
  {
    if m != [] {
      var n, d := m[..|m| - 1], m[|m| - 1];
      FirmwareHolds(n, p);
      TouchedHolds(d.start, d.pages * PAGE_SIZE, p);
      hide HoldsByte, Touched;
      assert forall i :: 0 <= i < |n| ==> m[i] == n[i];
    }
  }

  lemma RamHolds(m: seq<Descriptor>, p: nat)
    ensures p in Conventional(m) <==> IsRam(m, p)
  {
    InConventional(m, p);
    forall i | 0 <= i < |m|
      ensures p in DescPages(m[i]) <==> PageOf(m[i].start) <= p < PageOf(m[i].start) + m[i].pages
    {
      InPages(m[i].start / PAGE_SIZE, m[i].start / PAGE_SIZE + m[i].pages, p);
    }
    hide DescPages, Conventional;
  }

  /** A page is free after pmm_init exactly if it is RAM that nothing uses. */
  lemma FreeIff(m: seq<Descriptor>, b: Boot, p: nat)
    ensures var total := MaxEnd(m) / PAGE_SIZE;
            p in Conventional(m) - Reserved(m, b, total) <==> IsRam(m, p) && !Occupied(m, b, (total + 7) / 8, p)
  {
    var total := MaxEnd(m) / PAGE_SIZE;
    RamHolds(m, p);
    hide Conventional, ReservedLow, Firmware, Touched, HoldsByte, IsFirmware, MaxEnd;
    if p in Conventional(m) {
      RamBelow(m, p);
      LowHolds(b, total, p);
      TouchedHolds(b.framebuffer, b.fbBytes, p);
      TouchedHolds(b.rsdp, PAGE_SIZE, p);
      FirmwareHolds(m, p);
    }
  }

  /** The free pages are the pages of RAM that nothing uses. */
  ghost predicate ExactlyFree(free: set<nat>, m: seq<Descriptor>, b: Boot, size: nat) {
    forall p :: p in free <==> 0 <= p && IsRam(m, p) && !Occupied(m, b, size, p)
  }

  lemma AllFree(m: seq<Descriptor>, b: Boot)
    ensures var total := MaxEnd(m) / PAGE_SIZE;
            ExactlyFree(Conventional(m) - Reserved(m, b, total), m, b, (total + 7) / 8)
  {
    hide Conventional, Reserved, IsRam, Occupied, MaxEnd;
    forall p: nat { FreeIff(m, b, p); }
  }

  lemma ZeroReserved(m: seq<Descriptor>, b: Boot, total: nat)
    ensures 0 in Reserved(m, b, total)
  {
    assert 0 in Pages(0, 16);
  }

  lemma RamBelow(m: seq<Descriptor>, p: nat)
    requires IsRam(m, p)
    ensures p < MaxEnd(m) / PAGE_SIZE
  {
    var i :| 0 <= i < |m| && m[i].kind == 7 && PageOf(m[i].start) <= p < PageOf(m[i].start) + m[i].pages;
    MaxEndBound(m, i);
  }

  /** No descriptor ends above a, and a is 0 or the end of one. */
  ghost predicate IsHighest(m: seq<Descriptor>, a: nat) {
    && (forall i :: 0 <= i < |m| ==> End(m[i]) <= a)
    && (a == 0 || exists i :: 0 <= i < |m| && End(m[i]) == a)
  }

  lemma {:induction false} MaxEndIs(m: seq<Descriptor>)
    ensures IsHighest(m, MaxEnd(m))
  {
    if m != [] {
      var k := |m| - 1;
      MaxEndIs(m[..k]);
      forall i | 0 <= i < |m| ensures End(m[i]) <= MaxEnd(m) {
        if i < k { assert m[..k][i] == m[i]; }
      }
      if MaxEnd(m) != 0 && MaxEnd(m) == MaxEnd(m[..k]) {
        var i :| 0 <= i < k && End(m[..k][i]) == MaxEnd(m[..k]);
        assert m[i] == m[..k][i];
      } else if MaxEnd(m) != 0 {
        assert End(m[k]) == MaxEnd(m);
      }
    }
  }

  method HighestEnd(m: seq<Descriptor>) returns (maxAddr: nat)
    ensures maxAddr == MaxEnd(m) && IsHighest(m, maxAddr)
  {
    maxAddr := 0;
    var i := 0;
    while i < |m|
      invariant i <= |m| && maxAddr == MaxEnd(m[..i])
    {
      assert m[..i + 1][..i] == m[..i];
      var end := m[i].start + m[i].pages * PAGE_SIZE;
      if end > maxAddr { maxAddr := end; }
      i := i + 1;
    }
    assert m[..|m|] == m;
    MaxEndIs(m);
  }

  /** count free pages start at page i. */
  predicate RunAt(free: set<nat>, i: nat, count: nat) {
    forall j :: i <= j < i + count ==> j in free
  }

  // ------------------------------------------------------------------- runs

  datatype Event = HandOut(first: nat, count: nat) | Release(page: nat)

  /** One call of pmm_alloc_page, pmm_alloc_pages or pmm_free_page, seen on the set
      of free frames. A failed allocation hands out no frame. */
  ghost predicate Step(free: set<nat>, total: nat, e: Event, next: set<nat>) {
    match e
    case HandOut(f, n) => Pages(f, f + n) <= free && next == free - Pages(f, f + n)
    case Release(p) => next == free + if 0 < p < total then {p} else {}
  }

  ghost predicate Run(states: seq<set<nat>>, total: nat, es: seq<Event>) {
    |states| == |es| + 1 && forall i :: 0 <= i < |es| ==> Step(states[i], total, es[i], states[i + 1])
  }

  predicate HandsOut(e: Event, p: nat) {
    e.HandOut? && e.first <= p < e.first + e.count
  }

  lemma {:induction false} StaysOut(states: seq<set<nat>>, total: nat, es: seq<Event>, i: nat, j: nat, p: nat)
    requires Run(states, total, es) && i < j <= |es| && HandsOut(es[i], p)
    requires forall k :: i < k < j ==> es[k] != Release(p)
    ensures p !in states[j]
    decreases j
  {
    if i + 1 < j {
      StaysOut(states, total, es, i, j - 1, p);
      assert Step(states[j - 1], total, es[j - 1], states[j]);
    } else {
      assert Step(states[i], total, es[i], states[i + 1]) && IsPage(p);
    }
  }

  /** In every run, between two hand-outs of a frame that frame was given back. */
  lemma NeverTwice(states: seq<set<nat>>, total: nat, es: seq<Event>, i: nat, j: nat, p: nat)
    requires Run(states, total, es) && i < j < |es| && HandsOut(es[i], p) && HandsOut(es[j], p)
    ensures exists k :: i < k < j && es[k] == Release(p)
  {
    if forall k :: i < k < j ==> es[k] != Release(p) {
      StaysOut(states, total, es, i, j, p);
      assert Step(states[j], total, es[j], states[j + 1]) && IsPage(p);
    }
  }

  class FrameAllocator {
    const bitmap: array<bv8>
    const totalPages: nat
    var freePages: nat
    /** The frames whose bit is clear: the abstract state of the allocator. */
    ghost var free: set<nat>

    /** The bitmap stores the set `free`. */
    ghost predicate Rep()
      reads this, bitmap
    {
      bitmap.Length == (totalPages + 7) / 8 && Stores(bitmap[..], totalPages, free)
    }

    ghost predicate Valid()
      reads this, bitmap
    {
      Rep() && freePages == |free| && 0 !in free
    }

    method BitmapTest(page: nat) returns (r: bool)
      requires Rep() && page < totalPages
      ensures r <==> page !in free
    {
      assert Bit(bitmap[..], page) <==> page !in free;
      r := bitmap[page / 8] & Mask(page % 8) != 0;
    }

    method BitmapSet(page: nat)
      requires Rep() && page < totalPages
      modifies this`free, bitmap
      ensures Rep() && free == old(free) - {page}
    {
      ghost var was := bitmap[..];
      bitmap[page / 8] := bitmap[page / 8] | Mask(page % 8);
      free := free - {page};
      RepAfter(was, bitmap[..], totalPages, old(free), page);
    }

    method BitmapClear(page: nat)
      requires Rep() && page < totalPages
      modifies this`free, bitmap
      ensures Rep() && free == old(free) + {page}
    {
      ghost var was := bitmap[..];
      bitmap[page / 8] := bitmap[page / 8] & !Mask(page % 8);
      free := free + {page};
      RepAfter(was, bitmap[..], totalPages, old(free), page);
    }

    method ReservePage(page: nat)
      requires Rep() && freePages >= |free|
      modifies this`freePages, this`free, bitmap
      ensures Rep() && free == old(free) - {page}
      ensures freePages - |free| == old(freePages) - old(|free|)
    {
      if page >= totalPages { return; }
      var used := BitmapTest(page);
      if !used {
        assert page in free;
        BitmapSet(page);
        freePages := freePages - 1;
      }
    }

    method ReservePages(lo: nat, hi: nat)
      requires Rep() && freePages >= |free|
      modifies this`freePages, this`free, bitmap
      ensures Rep() && free == old(free) - Pages(lo, hi)
      ensures freePages - |free| == old(freePages) - old(|free|)
    {
      var p := lo;
      while p < hi
        invariant lo <= p && (p <= hi || p == lo)
        invariant Rep() && free == old(free) - Pages(lo, p)
        invariant freePages - |free| == old(freePages) - old(|free|)
      {
        NextPage(old(free), lo, p);
        ReservePage(p);
        p := p + 1;
      }
      assert p != hi ==> Pages(lo, p) == {} && Pages(lo, hi) == {};
    }

    method ReserveRange(start: nat, bytes: nat)
      requires Rep() && freePages >= |free|
      modifies this`freePages, this`free, bitmap
      ensures Rep() && free == old(free) - Touched(start, bytes)
      ensures freePages - |free| == old(freePages) - old(|free|)
    {
      if bytes == 0 { return; }
      ReservePages(start / PAGE_SIZE, (start + bytes + PAGE_SIZE - 1) / PAGE_SIZE);
    }

    /** pmm_init. Free afterwards are exactly the conventional pages outside every
        reserved range, whatever the map looks like; the counter is right exactly
        when no two conventional descriptors share a page. */
    constructor Init(m: seq<Descriptor>, b: Boot)
      ensures Rep() && fresh(bitmap) && totalPages == MaxEnd(m) / PAGE_SIZE
      ensures free == Conventional(m) - Reserved(m, b, totalPages)
      ensures bitmap.Length == (totalPages + 7) / 8
      ensures ExactlyFree(free, m, b, bitmap.Length)
      ensures 0 !in free
      ensures freePages == |free| + ConventionalCount(m) - |Conventional(m)|
      ensures freePages == |free| <==> Disjoint(m)
    {
      hide ExactlyFree, Disjoint, IsHighest, MaxEnd, Conventional, ConventionalCount, Reserved, Pages, Stores;
      var maxAddr := HighestEnd(m);
      var total := maxAddr / PAGE_SIZE;
      totalPages := total;
      bitmap := new bv8[(total + 7) / 8](_ => 0xFF);
      freePages := 0;
      free := {};
      new;
      AllOnes(bitmap[..], total);
      FreeConventional(m);
      ReserveAll(m, b);
      ZeroReserved(m, b, total);
      CountIffDisjoint(m);
      AllFree(m, b);
    }

    /** The second half of pmm_init: takes back what must never be handed out. */
    method ReserveAll(m: seq<Descriptor>, b: Boot)
      requires Rep() && freePages >= |free|
      modifies this`freePages, this`free, bitmap
      ensures Rep() && free == old(free) - Reserved(m, b, totalPages)
      ensures freePages - |free| == old(freePages) - old(|free|)
    {
      ghost var a, r := free, ReservedLow(b, totalPages);
      ReserveLow(b);
      ReserveRange(b.framebuffer, b.fbBytes);
      Minus(a, r, Touched(b.framebuffer, b.fbBytes));
      r := r + Touched(b.framebuffer, b.fbBytes);
      ReserveRange(b.rsdp, PAGE_SIZE);
      Minus(a, r, Touched(b.rsdp, PAGE_SIZE));
      r := r + Touched(b.rsdp, PAGE_SIZE);
      ReserveFirmware(m);
      Minus(a, r, Firmware(m));
    }

    method ReserveLow(b: Boot)
      requires Rep() && freePages >= |free|
      modifies this`freePages, this`free, bitmap
      ensures Rep() && free == old(free) - ReservedLow(b, totalPages)
      ensures freePages - |free| == old(freePages) - old(|free|)
    {
      ghost var a := free;
      ReservePages(KERNEL_PHYS_BASE / PAGE_SIZE, CeilPage(b.kernelEnd));
      ReservePages(CeilPage(b.kernelEnd), b.arenaEnd / PAGE_SIZE);
      Minus(a, KernelPages(b), ArenaPages(b));
      ghost var r := KernelPages(b) + ArenaPages(b);
      ReservePages(b.arenaEnd / PAGE_SIZE, CeilPage(b.arenaEnd + bitmap.Length));
      Minus(a, r, BitmapPages(b, totalPages));
      r := r + BitmapPages(b, totalPages);
      ReserveLowMemory();
      Minus(a, r, Pages(0, 16));
    }

    method ReserveLowMemory()
      requires Rep() && freePages >= |free|
      modifies this`freePages, this`free, bitmap
      ensures Rep() && free == old(free) - Pages(0, 16)
      ensures freePages - |free| == old(freePages) - old(|free|)
    {
      ReservePage(0);
      ReservePages(1, 16);
      Minus(old(free), {0}, Pages(1, 16));
      assert {0} + Pages(1, 16) == Pages(0, 16);
    }

    /** The loop of pmm_init that frees every conventional page. */
    method FreeConventional(m: seq<Descriptor>)
      requires Rep() && free == {} && freePages == 0 && totalPages == MaxEnd(m) / PAGE_SIZE
      modifies this`freePages, this`free, bitmap
      ensures Rep() && free == Conventional(m) && freePages == ConventionalCount(m) && freePages >= |free|
    {
      var i := 0;
      while i < |m|
        invariant i <= |m|
        invariant Rep() && free == Conventional(m[..i]) && freePages == ConventionalCount(m[..i])
      {
        assert m[..i + 1][..i] == m[..i];
        var d := m[i];
        if d.kind == CONVENTIONAL {
          MaxEndBound(m, i);
          var p := 0;
          while p < d.pages
            invariant p <= d.pages
            invariant Rep() && free == Conventional(m[..i]) + Pages(d.start / PAGE_SIZE, d.start / PAGE_SIZE + p)
            invariant freePages == ConventionalCount(m[..i]) + p
          {
            ghost var lo := d.start / PAGE_SIZE;
            BitmapClear(d.start / PAGE_SIZE + p);
            assert Conventional(m[..i]) + Pages(lo, lo + p) + {lo + p}
                   == Conventional(m[..i]) + (Pages(lo, lo + p) + {lo + p});
            freePages := freePages + 1;
            p := p + 1;
          }
        }
        i := i + 1;
      }
      assert m[..|m|] == m;
      ConventionalBounds(m);
    }

    method ReserveFirmware(m: seq<Descriptor>)
      requires Rep() && freePages >= |free|
      modifies this`freePages, this`free, bitmap
      ensures Rep() && free == old(free) - Firmware(m)
      ensures freePages - |free| == old(freePages) - old(|free|)
    {
      var i := 0;
      while i < |m|
        invariant i <= |m|
        invariant Rep() && free == old(free) - Firmware(m[..i])
        invariant freePages - |free| == old(freePages) - old(|free|)
      {
        FirmwareNext(old(free), m, i);
        var d := m[i];
        if FirmwareOwned(d) {
          ReserveRange(d.start, d.pages * PAGE_SIZE);
        }
        i := i + 1;
      }
      assert m[..|m|] == m;
    }

    /** pmm_alloc_page: hands out the lowest free frame; 0 means there is none. */
    method AllocPage() returns (f: nat)
      requires Valid()
      modifies this`freePages, this`free, bitmap
      ensures Valid()
      ensures f == 0 <==> old(free) == {}
      ensures f != 0 ==> f in old(free) && f < totalPages && forall q :: q in old(free) ==> f <= q
      ensures free == old(free) - {f}
      ensures Step(old(free), totalPages, HandOut(f, if f == 0 then 0 else 1), free)
    {
      var i := 0;
      while i < totalPages
        invariant i <= totalPages
        invariant forall q :: 0 <= q < i ==> q !in free
        invariant free == old(free) && Valid()
      {
        var used := BitmapTest(i);
        if !used {
          BitmapSet(i);
          freePages := freePages - 1;
          assert Pages(i, i + 1) == {i};
          return i;
        }
        i := i + 1;
      }
      assert free == {} && Pages(0, 0) == {};
      return 0;
    }

    /** pmm_alloc_pages: the lowest run of count free frames that starts at frame 1
        or later, found although the scan jumps past the first used frame it meets. */
    method AllocPages(count: nat) returns (f: nat)
      requires Valid()
      modifies this`freePages, this`free, bitmap
      ensures Valid()
      ensures f != 0 ==> RunAt(old(free), f, count) && free == old(free) - Pages(f, f + count)
      ensures f != 0 ==> 1 <= count && f + count <= totalPages && freePages == old(freePages) - count
      ensures f != 0 ==> forall i :: 1 <= i < f ==> !RunAt(old(free), i, count)
      ensures f == 0 ==> free == old(free)
      ensures Step(old(free), totalPages, HandOut(f, if f == 0 then 0 else count), free)
      ensures f == 0 <==> count == 0 || forall i :: 1 <= i ==> !RunAt(old(free), i, count)
    {
      assert Pages(0, 0) == {};
      if count == 0 || count > totalPages {
        if count > totalPages {
          forall i: nat | 1 <= i ensures !RunAt(free, i, count) { assert i + count - 1 !in free; }
        }
        return 0;
      }
      var i := 1;
      while i <= totalPages - count
        invariant 1 <= i
        invariant forall s :: 1 <= s < i ==> !RunAt(free, s, count)
        invariant free == old(free) && Valid()
      {
        var found, j := true, i;
        while j < i + count && found
          decreases i + count - j, found
          invariant i <= j <= i + count
          invariant forall q :: i <= q < j ==> q in free
          invariant !found ==> j < i + count && j !in free
          invariant free == old(free) && Valid()
        {
          var used := BitmapTest(j);
          if used { found := false; } else { j := j + 1; }
        }
        if found {
          assert RunAt(free, i, count);
          Take(i, count);
          return i;
        }
        forall s: nat | i <= s <= j ensures !RunAt(free, s, count) { assert s <= j < s + count; }
        i := j + 1;
      }
      forall s: nat | 1 <= s ensures !RunAt(free, s, count) {
        if s >= i { assert s + count - 1 !in free; }
      }
      return 0;
    }

    method Take(i: nat, count: nat)
      requires Valid() && RunAt(free, i, count) && i + count <= totalPages
      modifies this`freePages, this`free, bitmap
      ensures Valid() && free == old(free) - Pages(i, i + count) && freePages == old(freePages) - count
    {
      var j := i;
      while j < i + count
        invariant i <= j <= i + count
        invariant free == old(free) - Pages(i, j)
        invariant Valid() && freePages == old(freePages) - (j - i)
      {
        assert j in free;
        BitmapSet(j);
        freePages := freePages - 1;
        j := j + 1;
      }
    }

    /** pmm_free_page: a frame that is not out is left alone, and so is frame 0. */
    method FreePage(f: nat)
      requires Valid()
      modifies this`freePages, this`free, bitmap
      ensures Valid()
      ensures free == old(free) + if 0 < f < totalPages then {f} else {}
      ensures Step(old(free), totalPages, Release(f), free)
      ensures freePages == old(freePages) + if 0 < f < totalPages && f !in old(free) then 1 else 0
    {
      if f == 0 || f >= totalPages { return; }
      var used := BitmapTest(f);
      if used {
        BitmapClear(f);
        freePages := freePages + 1;
      }
    }
  }

  lemma {:induction false} MaxEndBound(m: seq<Descriptor>, i: nat)
    requires i < |m|
    ensures m[i].start / PAGE_SIZE + m[i].pages <= MaxEnd(m) / PAGE_SIZE
  {
    if i < |m| - 1 { MaxEndBound(m[..|m| - 1], i); }
  }
}
