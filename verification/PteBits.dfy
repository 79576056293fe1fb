/** The 64-bit table words of kernel/vmm.c and kernel/paging.c, and the decoded words of
    module PageTables that stand for them. */
module PteBits {
  import opened PageTables
  import Vmm
  import Paging

  const PRESENT: bv64 := 0x1
  const WRITE: bv64 := 0x2
  const USER: bv64 := 0x4
  const PCD: bv64 := 0x10
  const HUGE_BIT: bv64 := 0x80
  const NX: bv64 := 0x8000_0000_0000_0000
  const ADDRESS: bv64 := 0x000F_FFFF_FFFF_F000

  /** The frame number in a word. */
  function FrameBits(w: bv64): bv64 { (w & ADDRESS) >> 12 }

  function Decode(w: bv64): Pte {
    Pte(w & PRESENT != 0, FrameBits(w) as nat, w & WRITE != 0, w & USER != 0, w & HUGE_BIT != 0, w & NX != 0,
        w & PCD != 0)
  }

  function LeafBits(f: bv64, write: bv64, user: bv64, nx: bv64): bv64 { (f << 12) | (write | user | nx) | PRESENT }

  predicate AreFlags(write: bv64, user: bv64, nx: bv64) {
    (write == 0 || write == WRITE) && (user == 0 || user == USER) && (nx == 0 || nx == NX)
  }

  lemma LeafFields(f: bv64, write: bv64, user: bv64, nx: bv64)
    requires f < 0x100_0000_0000 && AreFlags(write, user, nx)
    ensures var w := LeafBits(f, write, user, nx);
            && FrameBits(w) == f && w & PRESENT != 0 && w & WRITE == write && w & USER == user
            && w & HUGE_BIT == 0 && w & NX == nx && w & PCD == 0
  {
  }

  /** vmm_map's last store: the page address, the caller's flags and PRESENT. */
  lemma LeafWord(f: bv64, write: bv64, user: bv64, nx: bv64)
    requires f < 0x100_0000_0000 && AreFlags(write, user, nx)
    ensures Decode(LeafBits(f, write, user, nx)) == Vmm.LeafPte(f as nat, Vmm.Flags(write != 0, user != 0, nx != 0))
  {
    hide LeafBits, FrameBits;
    LeafFields(f, write, user, nx);
  }

  function TableBits(f: bv64): bv64 { (f << 12) | 0x3 }

  lemma TableFields(f: bv64)
    requires f < 0x100_0000_0000
    ensures var w := TableBits(f);
            && FrameBits(w) == f && w & PRESENT != 0 && w & WRITE != 0 && w & USER == 0
            && w & HUGE_BIT == 0 && w & NX == 0 && w & PCD == 0
  {
  }

  /** paging_init's words that point to tables. */
  lemma TableWord(f: bv64)
    requires f < 0x100_0000_0000
    ensures Decode(TableBits(f)) == Paging.ToTable(f as nat)
  {
    hide TableBits, FrameBits;
    TableFields(f);
  }

  /** A word for a 2 MiB page: the address of frame f, 0x83, and NX and PCD where given. */
  function HugeBits(f: bv64, nx: bv64, pcd: bv64): bv64 { (f << 12) | (0x83 | nx | pcd) }

  lemma HugeFields(f: bv64, nx: bv64, pcd: bv64)
    requires f < 0x100_0000_0000 && (nx == 0 || nx == NX) && (pcd == 0 || pcd == PCD)
    ensures var w := HugeBits(f, nx, pcd);
            && FrameBits(w) == f && w & PRESENT != 0 && w & WRITE != 0 && w & USER == 0
            && w & HUGE_BIT != 0 && w & NX == nx && w & PCD == pcd
  {
  }

  lemma HugeWord(f: bv64, nx: bv64, pcd: bv64)
    requires f < 0x100_0000_0000 && (nx == 0 || nx == NX) && (pcd == 0 || pcd == PCD)
    ensures Decode(HugeBits(f, nx, pcd)) == Pte(true, f as nat, true, false, true, nx != 0, pcd != 0)
  {
    hide HugeBits, FrameBits;
    HugeFields(f, nx, pcd);
  }

  /** The words of the higher half: the address of the 2 MiB page | 0x83. */
  lemma HighWordIs(f: bv64, i: Index)
    requires f < 0x100_0000_0000 && f as nat == i * 512
    ensures Decode(HugeBits(f, 0, 0)) == Paging.HighWord(i)
  {
    hide HugeBits, Decode;
    HugeWord(f, 0, 0);
  }

  /** The words of the identity map: never executable, and not cached at the two
      interrupt controllers. */
  lemma IdentityWordIs(f: bv64, j: Index, i: Index, max: nat)
    requires f < 0x100_0000_0000 && f as nat == (j * 512 + i) * 512 && (j * 512 + i) * Paging.HUGE < max
    ensures var a := (j * 512 + i) * Paging.HUGE;
            Decode(HugeBits(f, NX, if a == 0xFEC0_0000 || a == 0xFEE0_0000 then PCD else 0))
            == Paging.IdentityWord(j, i, max)
  {
    hide HugeBits, Decode;
    HugeWord(f, NX, 0);
    HugeWord(f, NX, PCD);
  }

  /** get_or_create_table opens a word to users by or-ing in one bit. */
  lemma OpenWord(w: bv64)
    ensures Decode(w | USER) == Decode(w).(user := true)
  {
    assert FrameBits(w | USER) == FrameBits(w);
  }

  /** vmm_unmap and vmm_destroy_address_space mask only the low twelve bits: they follow
      the same frame as vmm_virt_to_phys exactly if the bits above 51 are clear, as they
      are in every word that points to a table. */
  lemma UnmapMask(w: bv64)
    ensures w & 0xFFFF_FFFF_FFFF_F000 == w & ADDRESS <==> w & 0xFFF0_0000_0000_0000 == 0
  {
  }

  /** The address vmm_virt_to_phys returns splits back into frame and offset. */
  lemma LeafAddress(w: bv64, virt: bv64)
    ensures var r := (w & ADDRESS) | (virt & 0xFFF); r >> 12 == FrameBits(w) && r & 0xFFF == virt & 0xFFF
  {
  }

  /** The four indices and the offset are the whole of a 48-bit address. */
  lemma IndexBits(virt: bv64)
    requires virt < 0x1_0000_0000_0000
    ensures virt == (((virt >> 39) & 0x1FF) << 39) | (((virt >> 30) & 0x1FF) << 30) | (((virt >> 21) & 0x1FF) << 21)
                    | (((virt >> 12) & 0x1FF) << 12) | (virt & 0xFFF)
  {
  }
}
