/** The ELF images that kernel/process.c loads: the header fields it reads, the checks it
    makes on them, and the bytes they put at each address. The segment rules are those of
    the Program Header section in chapter 5 of the System V gABI. */
module ElfImage {
  import opened Words

  const EHDR_SIZE: nat := 64
  const PHDR_SIZE: nat := 56
  const PT_LOAD: nat := 1
  const USER_LOWER_LIMIT: nat := 0x40_0000
  const USER_UPPER_LIMIT: nat := 0x8000_0000_0000

  /** Pages of the 48-bit address space. */
  const PAGE_COUNT: nat := 0x10_0000_0000

  // -------------------------------------------------------------- the file format

  function Word16(b: seq<Byte>, o: nat): nat
    requires o + 2 <= |b|
  {
    var lo: nat, hi: nat := b[o], b[o + 1];
    lo + 0x100 * hi
  }

  function Word32(b: seq<Byte>, o: nat): nat
    requires o + 4 <= |b|
  {
    Word16(b, o) + 0x1_0000 * Word16(b, o + 2)
  }

  function Word64(b: seq<Byte>, o: nat): nat
    requires o + 8 <= |b|
  {
    Word32(b, o) + 0x1_0000_0000 * Word32(b, o + 4)
  }

  /** The fields of Elf64_Phdr that the loader reads. */
  datatype Segment = Segment(kind: nat, write: bool, exec: bool, offset: nat, vaddr: nat, filesz: nat, memsz: nat)

  function EntryPoint(b: seq<Byte>): nat
    requires |b| >= EHDR_SIZE
  {
    Word64(b, 24)
  }

  function Phoff(b: seq<Byte>): nat
    requires |b| >= EHDR_SIZE
  {
    Word64(b, 32)
  }

  function Phnum(b: seq<Byte>): nat
    requires |b| >= EHDR_SIZE
  {
    Word16(b, 56)
  }

  /** The header is an ELF header, the entry point is a user address and the program
      headers lie in the file. */
  predicate HeaderOk(b: seq<Byte>) {
    && |b| >= EHDR_SIZE && b[..4] == [0x7F, 0x45, 0x4C, 0x46]
    && USER_LOWER_LIMIT <= EntryPoint(b) < USER_UPPER_LIMIT
    && Phoff(b) + Phnum(b) * PHDR_SIZE <= |b|
  }

  function SegmentAt(b: seq<Byte>, i: nat): Segment
    requires HeaderOk(b) && i < Phnum(b)
  {
    var o := Phoff(b) + i * PHDR_SIZE;
    assert o + PHDR_SIZE <= Phoff(b) + Phnum(b) * PHDR_SIZE;
    Segment(Word32(b, o), Word32(b, o + 4) / 2 % 2 == 1, Word32(b, o + 4) % 2 == 1,
            Word64(b, o + 8), Word64(b, o + 16), Word64(b, o + 32), Word64(b, o + 40))
  }

  function FirstPage(s: Segment): nat { s.vaddr / 0x1000 }

  function LastPage(s: Segment): nat { (s.vaddr + s.memsz + 0xFFF) / 0x1000 }

  /** The checks load_elf_into_as makes on a PT_LOAD segment. */
  predicate SegmentOk(b: seq<Byte>, s: Segment) {
    && s.filesz <= s.memsz && s.offset + s.filesz <= |b|
    && USER_LOWER_LIMIT <= FirstPage(s) * 0x1000 && LastPage(s) * 0x1000 < USER_UPPER_LIMIT
  }

  // ---------------------------------------------------------------- wrap-around

  /** The sums the loader forms for a segment do not pass 2^64. */
  predicate InWords(s: Segment) {
    s.offset + s.filesz < U64 && s.vaddr + s.memsz + 0xFFF < U64
  }

  /** No sum the loader forms for this image passes 2^64. */
  ghost predicate NoWrap(b: seq<Byte>) {
    |b| >= EHDR_SIZE ==>
      && Phoff(b) + Phnum(b) * PHDR_SIZE < U64
      && (HeaderOk(b) ==> forall i :: 0 <= i < Phnum(b) && SegmentAt(b, i).kind == PT_LOAD ==> InWords(SegmentAt(b, i)))
  }

  /** The checks on a segment as the loader computes them, in 64-bit words. */
  predicate WordChecks(b: seq<Byte>, s: Segment) {
    && s.filesz <= s.memsz && (s.offset + s.filesz) % U64 <= |b|
    && USER_LOWER_LIMIT <= s.vaddr / 0x1000 * 0x1000
    && (s.vaddr + s.memsz + 0xFFF) % U64 / 0x1000 * 0x1000 < USER_UPPER_LIMIT
  }

  /** A segment is fit to be loaded if and only if the checks in words pass and none of
      their sums wraps; so where they pass, a wrap is exactly what they miss. */
  lemma SegmentChecks(b: seq<Byte>, s: Segment)
    requires |b| < U64
    ensures SegmentOk(b, s) <==> WordChecks(b, s) && InWords(s)
    ensures InWords(s) ==> (SegmentOk(b, s) <==> WordChecks(b, s))
    ensures WordChecks(b, s) ==> (SegmentOk(b, s) <==> InWords(s))
  {
  }

  /** A segment that the checks in words let through: its file bytes begin a page below
      2^64, outside every file. */
  lemma WrapAccepted(b: seq<Byte>)
    requires |b| < 0xFFFF_FFFF_FFFF_F000
    ensures var s := Segment(PT_LOAD, true, true, 0xFFFF_FFFF_FFFF_F000, 0x20_0000_0000, 0x1000, 0x1000);
            WordChecks(b, s) && !SegmentOk(b, s) && s.offset > |b|
  {
  }

  /** The same for the program headers: where the check in words passes, they lie in the
      file if and only if the sum does not wrap. */
  lemma HeaderChecks(phoff: nat, phnum: nat, size: nat)
    requires phoff < U64 && phnum < 0x1_0000 && size < U64 && (phoff + phnum * PHDR_SIZE) % U64 <= size
    ensures phoff + phnum * PHDR_SIZE <= size <==> phoff + phnum * PHDR_SIZE < U64
  {
  }

  lemma HeaderWrapAccepted(size: nat)
    requires size < 0xFFFF_FFFF_FFFF_FFC8
    ensures var phoff, phnum := 0xFFFF_FFFF_FFFF_FFC8, 1; (phoff + phnum * PHDR_SIZE) % U64 <= size && phoff > size
  {
  }

  // ---------------------------------------------------------------- the contents

  predicate Covers(s: Segment, p: nat) {
    s.kind == PT_LOAD && FirstPage(s) <= p < LastPage(s)
  }

  /** Page p belongs to one of the first n segments to be loaded. */
  ghost predicate Target(b: seq<Byte>, n: nat, p: nat)
    requires HeaderOk(b) && n <= Phnum(b)
  {
    exists i :: 0 <= i < n && Covers(SegmentAt(b, i), p)
  }

  /** The segment puts a file byte at address a. */
  predicate Supplies(b: seq<Byte>, s: Segment, a: nat) {
    s.kind == PT_LOAD && s.vaddr <= a < s.vaddr + s.filesz && s.offset + s.filesz <= |b|
  }

  /** The byte the first n segments leave at address a, where there was base: the last
      segment that supplies a file byte wins, and everything else stays. */
  function Overlay(b: seq<Byte>, n: nat, a: nat, base: Byte): Byte
    requires HeaderOk(b) && n <= Phnum(b)
  {
    if n == 0 then base
    else
      var s := SegmentAt(b, n - 1);
      if Supplies(b, s, a) then b[s.offset + (a - s.vaddr)] else Overlay(b, n - 1, a, base)
  }

  /** The first n segments have passed the checks. */
  ghost predicate Checked(b: seq<Byte>, n: nat)
    requires HeaderOk(b) && n <= Phnum(b)
  {
    forall i :: 0 <= i < n && SegmentAt(b, i).kind == PT_LOAD ==> SegmentOk(b, SegmentAt(b, i))
  }

  ghost predicate ImageOk(b: seq<Byte>) {
    HeaderOk(b) && Checked(b, Phnum(b))
  }

  lemma InPage(s: Segment, a: nat)
    ensures s.vaddr <= a < s.vaddr + s.memsz ==> FirstPage(s) <= a / 0x1000 < LastPage(s)
  {
  }

  /** File byte off of a segment lies in a page the segment covers. */
  lemma FileByteAt(b: seq<Byte>, s: Segment, off: nat)
    requires s.kind == PT_LOAD && SegmentOk(b, s) && off < s.filesz
    ensures (s.vaddr + off) / 0x1000 < PAGE_COUNT && Covers(s, (s.vaddr + off) / 0x1000)
  {
    InPage(s, s.vaddr + off);
  }

  lemma {:induction false} NothingSupplied(b: seq<Byte>, n: nat, a: nat, base: Byte)
    requires HeaderOk(b) && n <= Phnum(b) && forall j: nat :: j < n ==> !Supplies(b, SegmentAt(b, j), a)
    ensures Overlay(b, n, a, base) == base
  {
    hide HeaderOk, SegmentAt;
    if n > 0 { NothingSupplied(b, n - 1, a, base); }
  }

  /** Outside the pages of the loaded segments nothing changes. */
  lemma OverlayOutside(b: seq<Byte>, n: nat, a: nat, base: Byte)
    requires HeaderOk(b) && n <= Phnum(b) && Checked(b, n) && !Target(b, n, a / 0x1000)
    ensures Overlay(b, n, a, base) == base
  {
    hide HeaderOk, SegmentAt;
    forall j: nat | j < n ensures !Supplies(b, SegmentAt(b, j), a) {
      InPage(SegmentAt(b, j), a);
      assert !Covers(SegmentAt(b, j), a / 0x1000);
    }
    NothingSupplied(b, n, a, base);
  }

  /** Where no other segment supplies a file byte, segment i leaves its file bytes and,
      from p_filesz on, what was there: zeros in a page that was mapped for this image. */
  lemma {:induction false} SegmentReads(b: seq<Byte>, n: nat, i: nat, a: nat, base: Byte)
    requires HeaderOk(b) && n <= Phnum(b) && i < n && SegmentAt(b, i).kind == PT_LOAD && SegmentOk(b, SegmentAt(b, i))
    requires SegmentAt(b, i).vaddr <= a < SegmentAt(b, i).vaddr + SegmentAt(b, i).memsz
    requires forall j: nat :: j < n && j != i ==> !Supplies(b, SegmentAt(b, j), a)
    ensures var s := SegmentAt(b, i);
            Overlay(b, n, a, base) == if a < s.vaddr + s.filesz then b[s.offset + (a - s.vaddr)] else base
  {
    hide HeaderOk, SegmentAt;
    if n - 1 == i { NothingSupplied(b, n - 1, a, base); } else { SegmentReads(b, n - 1, i, a, base); }
  }

  // ------------------------------------------------------------ one byte at a time

  /** The byte wanted at a while segment n has had its first off file bytes copied. */
  function Want(b: seq<Byte>, n: nat, off: nat, a: nat, base: Byte): Byte
    requires HeaderOk(b) && n <= Phnum(b)
  {
    if n < Phnum(b) && Supplies(b, SegmentAt(b, n), a) && a < SegmentAt(b, n).vaddr + off
    then b[SegmentAt(b, n).offset + (a - SegmentAt(b, n).vaddr)] else Overlay(b, n, a, base)
  }

  lemma NoneYet(b: seq<Byte>, n: nat, a: nat, base: Byte)
    requires HeaderOk(b) && n <= Phnum(b)
    ensures Want(b, n, 0, a, base) == Overlay(b, n, a, base)
  {
  }

  lemma WantNext(b: seq<Byte>, n: nat, off: nat, x: nat, base: Byte)
    requires HeaderOk(b) && n < Phnum(b)
    requires var s := SegmentAt(b, n); s.kind == PT_LOAD && off < s.filesz && SegmentOk(b, s)
    ensures var s := SegmentAt(b, n);
            Want(b, n, off + 1, x, base) == if x == s.vaddr + off then b[s.offset + off] else Want(b, n, off, x, base)
  {
    hide HeaderOk, SegmentAt;
  }

  /** When all its file bytes are copied, segment n is loaded. */
  lemma WantAll(b: seq<Byte>, n: nat, x: nat, base: Byte)
    requires HeaderOk(b) && n < Phnum(b)
    ensures Want(b, n, SegmentAt(b, n).filesz, x, base) == Overlay(b, n + 1, x, base)
  {
    hide HeaderOk, SegmentAt;
  }
}
