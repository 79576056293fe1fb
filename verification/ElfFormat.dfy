/** ELF images as the System V gABI lays them out: little-endian numbers at fixed offsets of
    Elf64_Ehdr and Elf64_Phdr (the ELF Header section of chapter 4 and the Program Header
    section of chapter 5), and what kernel/process.c makes of them. */
module ElfFormat {
  import opened Words
  import opened ElfImage

  /** The number in the n bytes of b at o, lowest first. */
  function Little(b: seq<Byte>, o: nat, n: nat): nat
    requires o + n <= |b|
    decreases n
  {
    if n == 0 then 0 else
    var low: nat := b[o];
    low + 0x100 * Little(b, o + 1, n - 1)
  }

  lemma Little2(b: seq<Byte>, o: nat)
    requires o + 2 <= |b|
    ensures Word16(b, o) == Little(b, o, 2)
  {
    assert Little(b, o + 1, 1) == b[o + 1] + 0x100 * Little(b, o + 2, 0);
  }

  lemma LittleSplit(b: seq<Byte>, o: nat, n: nat)
    requires o + n + 2 <= |b|
    ensures Little(b, o, n + 2) == Word16(b, o) + 0x1_0000 * Little(b, o + 2, n)
  {
    assert Little(b, o + 1, n + 1) == b[o + 1] + 0x100 * Little(b, o + 2, n);
  }

  lemma Little4(b: seq<Byte>, o: nat)
    requires o + 4 <= |b|
    ensures Word32(b, o) == Little(b, o, 4)
  {
    LittleSplit(b, o, 2);
    Little2(b, o + 2);
  }

  lemma Little8(b: seq<Byte>, o: nat)
    requires o + 8 <= |b|
    ensures Word64(b, o) == Little(b, o, 8)
  {
    LittleSplit(b, o, 6);
    LittleSplit(b, o + 2, 4);
    Little4(b, o + 4);
    assert Word32(b, o) == Word16(b, o) + 0x1_0000 * Word16(b, o + 2);
    hide Word16, Little;
  }

  // -------------------------------------------------------------- header fields

  /** e_entry is at 24, e_phoff at 32 and e_phnum at 56. */
  lemma HeaderFields(b: seq<Byte>)
    requires |b| >= 64
    ensures EntryPoint(b) == Little(b, 24, 8) && Phoff(b) == Little(b, 32, 8) && Phnum(b) == Little(b, 56, 2)
  {
    Little8(b, 24);
    Little8(b, 32);
    Little2(b, 56);
  }

  /** Where program header i begins. */
  function PhdrOffset(b: seq<Byte>, i: nat): nat
    requires |b| >= 64
  {
    Little(b, 32, 8) + 56 * i
  }

  /** Program header i lies in the file. */
  predicate HasPhdr(b: seq<Byte>, i: nat) {
    |b| >= 64 && i < Little(b, 56, 2) && PhdrOffset(b, i) + 56 <= |b|
  }

  lemma PhdrInFile(b: seq<Byte>, i: nat)
    requires HeaderOk(b) && i < Phnum(b)
    ensures HasPhdr(b, i) && PhdrOffset(b, i) == Phoff(b) + i * PHDR_SIZE
  {
    HeaderFields(b);
    hide Little, Word64, Word16;
    assert (i + 1) * PHDR_SIZE <= Phnum(b) * PHDR_SIZE;
  }

  /** PF_W is bit 1 and PF_X bit 0 of p_flags, whose lowest byte is at offset 4. */
  predicate MayWrite(b: seq<Byte>, i: nat)
    requires HasPhdr(b, i)
  {
    b[PhdrOffset(b, i) + 4] / 2 % 2 == 1
  }

  predicate MayExecute(b: seq<Byte>, i: nat)
    requires HasPhdr(b, i)
  {
    b[PhdrOffset(b, i) + 4] % 2 == 1
  }

  lemma LowBits(b: seq<Byte>, o: nat)
    requires o + 4 <= |b|
    ensures Word32(b, o) % 2 == b[o] % 2 && Word32(b, o) / 2 % 2 == b[o] / 2 % 2
  {
    var low: nat, rest: nat := b[o], b[o + 1];
    assert Word32(b, o) == low + 2 * (0x80 * (rest + 0x100 * Word16(b, o + 2)));
    Halves(low, 0x80 * (rest + 0x100 * Word16(b, o + 2)));
  }

  lemma Halves(low: nat, k: nat)
    requires k % 2 == 0
    ensures (low + 2 * k) % 2 == low % 2 && (low + 2 * k) / 2 % 2 == low / 2 % 2
  {
  }

  /** p_type is at 0, p_flags at 4, p_offset at 8, p_vaddr at 16, p_filesz at 32 and
      p_memsz at 40. */
  lemma SegmentFields(b: seq<Byte>, i: nat)
    requires HeaderOk(b) && i < Phnum(b)
    ensures HasPhdr(b, i)
    ensures var o, s := PhdrOffset(b, i), SegmentAt(b, i);
            && s.kind == Little(b, o, 4) && s.write == MayWrite(b, i) && s.exec == MayExecute(b, i)
            && s.offset == Little(b, o + 8, 8) && s.vaddr == Little(b, o + 16, 8)
            && s.filesz == Little(b, o + 32, 8) && s.memsz == Little(b, o + 40, 8)
  {
    PhdrInFile(b, i);
    var o := PhdrOffset(b, i);
    Little4(b, o);
    LowBits(b, o + 4);
    Little8(b, o + 8);
    Little8(b, o + 16);
    Little8(b, o + 32);
    Little8(b, o + 40);
    hide Little, Word64, Word32, Word16, HeaderOk;
  }

  /** Program header i is one to be loaded, and its bytes in memory reach into page p. */
  predicate LoadsPage(b: seq<Byte>, i: nat, p: nat)
    requires HasPhdr(b, i)
  {
    var o := PhdrOffset(b, i);
    var start, size := Little(b, o + 16, 8), Little(b, o + 40, 8);
    Little(b, o, 4) == 1 && start / 0x1000 <= p && p * 0x1000 < start + size
  }

  /** Program header i is the first to reach into page p. */
  ghost predicate FirstLoads(b: seq<Byte>, i: nat, p: nat) {
    && HasPhdr(b, i) && LoadsPage(b, i, p)
    && forall j: nat :: j < i ==> HasPhdr(b, j) && !LoadsPage(b, j, p)
  }

  lemma CoversIff(b: seq<Byte>, i: nat, p: nat)
    requires HeaderOk(b) && i < Phnum(b)
    ensures HasPhdr(b, i) && (Covers(SegmentAt(b, i), p) <==> LoadsPage(b, i, p))
  {
    SegmentFields(b, i);
    hide Little, SegmentAt, HeaderOk;
  }

  /** A PT_LOAD segment passes the loader's checks exactly if it has no more bytes in the file
      than in memory, the former lie in the file, and every page it takes is a user's. */
  lemma SegmentOkIff(b: seq<Byte>, s: Segment)
    requires s.kind == PT_LOAD && s.memsz > 0
    ensures SegmentOk(b, s) <==>
            && s.filesz <= s.memsz && s.offset + s.filesz <= |b|
            && forall p: nat :: Covers(s, p) ==> 0x40_0000 <= p * 0x1000 && (p + 1) * 0x1000 < 0x8000_0000_0000
  {
    var first, last := FirstPage(s), LastPage(s) - 1;
    assert Covers(s, first) && Covers(s, last);
  }

  // ------------------------------------------------------------------- encoding

  /** The n lowest bytes of v, lowest first. */
  function LittleBytes(v: nat, n: nat): (r: seq<Byte>)
    ensures |r| == n
  {
    if n == 0 then [] else [v % 0x100] + LittleBytes(v / 0x100, n - 1)
  }

  /** 256 to the power n. */
  function Limit(n: nat): nat {
    if n == 0 then 1 else 0x100 * Limit(n - 1)
  }

  lemma {:induction false} LittleReads(b: seq<Byte>, o: nat, n: nat, v: nat)
    requires o + n <= |b| && b[o..o + n] == LittleBytes(v, n) && v < Limit(n)
    ensures Little(b, o, n) == v
    decreases n
  {
    if n > 0 {
      assert b[o..o + n][0] == b[o] && b[o + 1..o + n] == b[o..o + n][1..] == LittleBytes(v / 0x100, n - 1);
      LittleReads(b, o + 1, n - 1, v / 0x100);
    }
  }

  lemma Limits()
    ensures Limit(2) == 0x1_0000 && Limit(4) == 0x1_0000_0000 && Limit(8) == U64
  {
    assert Limit(4) == 0x1_0000 * Limit(2);
    assert Limit(6) == 0x1_0000 * Limit(4);
    assert Limit(8) == 0x1_0000 * Limit(6);
  }

  /** A number and the bytes it is given. */
  datatype Field = Field(value: nat, width: nat)

  /** Fields one after the other. */
  function Laid(fs: seq<Field>): seq<Byte> {
    if fs == [] then [] else LittleBytes(fs[0].value, fs[0].width) + Laid(fs[1..])
  }

  /** Where field k begins; with k == |fs|, where they all end. */
  function Place(fs: seq<Field>, k: nat): nat
    requires k <= |fs|
  {
    if k == 0 then 0 else fs[0].width + Place(fs[1..], k - 1)
  }

  lemma {:induction false} LaidLength(fs: seq<Field>)
    ensures |Laid(fs)| == Place(fs, |fs|)
  {
    if fs != [] { LaidLength(fs[1..]); }
  }

  /** A field is read back from its place. */
  lemma {:induction false} LaidReads(b: seq<Byte>, o: nat, fs: seq<Field>, k: nat)
    requires o + |Laid(fs)| <= |b| && b[o..o + |Laid(fs)|] == Laid(fs)
    requires k < |fs| && fs[k].value < Limit(fs[k].width)
    ensures o + Place(fs, k) + fs[k].width <= |b| && Little(b, o + Place(fs, k), fs[k].width) == fs[k].value
    decreases k
  {
    var n, rest := fs[0].width, Laid(fs[1..]);
    assert b[o..o + n] == Laid(fs)[..n] by { assert b[o..o + |Laid(fs)|][..n] == b[o..o + n]; }
    if k == 0 {
      LittleReads(b, o, n, fs[0].value);
    } else {
      assert b[o + n..o + n + |rest|] == rest by {
        assert b[o..o + |Laid(fs)|][n..] == b[o + n..o + n + |rest|] && Laid(fs)[n..] == rest;
      }
      LaidReads(b, o + n, fs[1..], k - 1);
    }
  }

  datatype Ehdr = Ehdr(ident: seq<Byte>, kind: nat, machine: nat, version: nat, entry: nat, phoff: nat, shoff: nat,
                       flags: nat, ehsize: nat, phentsize: nat, phnum: nat, shentsize: nat, shnum: nat, shstrndx: nat)

  datatype Phdr = Phdr(kind: nat, flags: nat, offset: nat, vaddr: nat, paddr: nat, filesz: nat, memsz: nat, align: nat)

  /** What follows e_ident. */
  function EhdrFields(h: Ehdr): seq<Field> {
    [Field(h.kind, 2), Field(h.machine, 2), Field(h.version, 4), Field(h.entry, 8), Field(h.phoff, 8),
     Field(h.shoff, 8), Field(h.flags, 4), Field(h.ehsize, 2), Field(h.phentsize, 2), Field(h.phnum, 2),
     Field(h.shentsize, 2), Field(h.shnum, 2), Field(h.shstrndx, 2)]
  }

  function PhdrFields(h: Phdr): seq<Field> {
    [Field(h.kind, 4), Field(h.flags, 4), Field(h.offset, 8), Field(h.vaddr, 8), Field(h.paddr, 8),
     Field(h.filesz, 8), Field(h.memsz, 8), Field(h.align, 8)]
  }

  predicate PhdrFits(h: Phdr) {
    && h.kind < 0x1_0000_0000 && h.flags < 0x1_0000_0000
    && h.offset < U64 && h.vaddr < U64 && h.filesz < U64 && h.memsz < U64
  }

  /** What the loader sees of a program header. */
  function Seen(h: Phdr): Segment {
    Segment(h.kind, h.flags / 2 % 2 == 1, h.flags % 2 == 1, h.offset, h.vaddr, h.filesz, h.memsz)
  }

  lemma {:induction false} NextPlace(fs: seq<Field>, k: nat)
    requires k < |fs|
    ensures Place(fs, k + 1) == Place(fs, k) + fs[k].width
  {
    if k > 0 { NextPlace(fs[1..], k - 1); }
  }

  lemma FourPlaces(fs: seq<Field>, k: nat)
    requires k + 4 <= |fs|
    ensures Place(fs, k + 4) == Place(fs, k) + fs[k].width + fs[k + 1].width + fs[k + 2].width + fs[k + 3].width
  {
    NextPlace(fs, k);
    NextPlace(fs, k + 1);
    NextPlace(fs, k + 2);
    NextPlace(fs, k + 3);
  }

  lemma PhdrPlaces(h: Phdr)
    ensures var fs := PhdrFields(h);
            && Place(fs, 0) == 0 && Place(fs, 1) == 4 && Place(fs, 2) == 8 && Place(fs, 3) == 16
            && Place(fs, 5) == 32 && Place(fs, 6) == 40 && |Laid(fs)| == 56
  {
    var fs := PhdrFields(h);
    LaidLength(fs);
    assert Place(fs, 0) == 0;
    hide Place, Laid;
    NextPlace(fs, 0);
    NextPlace(fs, 1);
    NextPlace(fs, 2);
    FourPlaces(fs, 0);
    NextPlace(fs, 4);
    NextPlace(fs, 5);
    FourPlaces(fs, 4);
  }

  lemma EhdrPlaces(h: Ehdr)
    ensures var fs := EhdrFields(h);
            Place(fs, 3) == 8 && Place(fs, 4) == 16 && Place(fs, 9) == 40 && |Laid(fs)| == 48
  {
    var fs := EhdrFields(h);
    LaidLength(fs);
    assert Place(fs, 0) == 0;
    hide Place, Laid;
    FourPlaces(fs, 0);
    NextPlace(fs, 3);
    FourPlaces(fs, 4);
    NextPlace(fs, 8);
    FourPlaces(fs, 9);
  }

  /** File b begins with header h and has the program headers of hs where h says. */
  ghost predicate Encodes(b: seq<Byte>, h: Ehdr, hs: seq<Phdr>) {
    && |b| >= 64 && |h.ident| == 16 && b[..16] == h.ident && b[16..64] == Laid(EhdrFields(h))
    && h.entry < U64 && h.phoff < U64 && h.phnum == |hs| < 0x1_0000
    && h.phoff + 56 * |hs| <= |b|
    && forall i: nat :: i < |hs| ==> PhdrFits(hs[i]) && PhdrIn(b, h.phoff + 56 * i, hs[i])
  }

  predicate PhdrIn(b: seq<Byte>, o: nat, h: Phdr) {
    o + 56 <= |b| && b[o..o + 56] == Laid(PhdrFields(h))
  }

  lemma PhdrReads(b: seq<Byte>, o: nat, h: Phdr)
    requires PhdrIn(b, o, h) && PhdrFits(h)
    ensures Little(b, o, 4) == h.kind && Little(b, o + 4, 4) == h.flags && Little(b, o + 8, 8) == h.offset
    ensures Little(b, o + 16, 8) == h.vaddr && Little(b, o + 32, 8) == h.filesz && Little(b, o + 40, 8) == h.memsz
  {
    Limits();
    PhdrPlaces(h);
    var fs := PhdrFields(h);
    hide Little, Limit, Laid, Place;
    LaidReads(b, o, fs, 0);
    LaidReads(b, o, fs, 1);
    LaidReads(b, o, fs, 2);
    LaidReads(b, o, fs, 3);
    LaidReads(b, o, fs, 5);
    LaidReads(b, o, fs, 6);
  }

  lemma EhdrReads(b: seq<Byte>, h: Ehdr)
    requires |b| >= 64 && b[16..64] == Laid(EhdrFields(h))
    requires h.entry < U64 && h.phoff < U64 && h.phnum < 0x1_0000
    ensures Little(b, 24, 8) == h.entry && Little(b, 32, 8) == h.phoff && Little(b, 56, 2) == h.phnum
  {
    Limits();
    EhdrPlaces(h);
    var fs := EhdrFields(h);
    hide Little, Limit, Laid, Place;
    LaidReads(b, 16, fs, 3);
    LaidReads(b, 16, fs, 4);
    LaidReads(b, 16, fs, 9);
  }

  /** An image laid out as the gABI says is accepted exactly if its magic and its entry point
      are right, and the loader then sees the very fields that were laid out. */
  lemma ImageDecodes(b: seq<Byte>, h: Ehdr, hs: seq<Phdr>)
    requires Encodes(b, h, hs)
    ensures HeaderOk(b) <==> h.ident[..4] == [0x7F, 0x45, 0x4C, 0x46] && 0x40_0000 <= h.entry < 0x8000_0000_0000
    ensures EntryPoint(b) == h.entry && Phnum(b) == |hs|
    ensures HeaderOk(b) ==> forall i: nat :: i < |hs| ==> SegmentAt(b, i) == Seen(hs[i])
  {
    EhdrReads(b, h);
    HeaderFields(b);
    assert b[..16][..4] == b[..4];
    hide Laid, Little, EntryPoint, Phoff, Phnum;
    if HeaderOk(b) {
      forall i: nat | i < |hs| ensures SegmentAt(b, i) == Seen(hs[i]) {
        hide HeaderOk;
        PhdrDecodes(b, i, hs[i]);
      }
    }
  }

  lemma PhdrDecodes(b: seq<Byte>, i: nat, h: Phdr)
    requires HeaderOk(b) && i < Phnum(b) && PhdrFits(h) && PhdrIn(b, Phoff(b) + 56 * i, h)
    ensures SegmentAt(b, i) == Seen(h)
  {
    PhdrInFile(b, i);
    SegmentFields(b, i);
    var o := PhdrOffset(b, i);
    PhdrReads(b, o, h);
    Little4(b, o + 4);
    LowBits(b, o + 4);
    hide Little, SegmentAt, Word32, HeaderOk, PhdrFits, PhdrIn;
  }
}
