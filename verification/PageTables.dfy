/** Four-level page tables as a value: physical memory, the hardware walk, and the
    tree of table frames that kernel/vmm.c and kernel/paging.c build and keep.

    A table word is kept decoded, as the fields of section 4.5 of the Intel SDM,
    volume 3A; module PteBits relates the fields to the 64-bit masks of the code. */
module PageTables {
  import opened Words

  type Index = i: nat | i < 512

  datatype Pte = Pte(present: bool, frame: nat, write: bool, user: bool, huge: bool, nx: bool, pcd: bool)

  const ABSENT: Pte := Pte(false, 0, false, false, false, false, false)

  /** What a frame holds: 512 table words, bytes, or the AddressSpace record. */
  datatype Page = Table(entries: seq<Pte>) | Bytes(data: seq<Byte>) | Space(pml4: nat)

  type Memory = map<nat, Page>

  function EmptyTable(): (t: Page)
    ensures t.Table? && |t.entries| == 512 && forall i: Index :: t.entries[i] == ABSENT
  {
    Table(seq(512, _ => ABSENT))
  }

  predicate IsTable(mem: Memory, f: nat) {
    f in mem && mem[f].Table? && |mem[f].entries| == 512
  }

  /** Eight bytes read as a table word, lowest first. */
  function WordIn(data: seq<Byte>, i: Index): Pte
    requires |data| == 4096
  {
    var low: nat, top: nat := data[8 * i], data[8 * i + 7];
    var b1: nat, b2: nat, b3: nat := data[8 * i + 1], data[8 * i + 2], data[8 * i + 3];
    var b4: nat, b5: nat, b6: nat := data[8 * i + 4], data[8 * i + 5], data[8 * i + 6];
    Pte(low % 2 == 1,
        b1 / 16 + 0x10 * b2 + 0x1000 * b3 + 0x10_0000 * b4 + 0x1000_0000 * b5 + 0x10_0000_0000 * (b6 % 16),
        low / 2 % 2 == 1, low / 4 % 2 == 1, low / 128 == 1, top / 128 == 1, low / 16 % 2 == 1)
  }

  /** The word table[i] of the table in frame f; a frame of bytes is read as words, and
      one that the model does not hold as an empty table. */
  function Entry(mem: Memory, f: nat, i: Index): Pte {
    if IsTable(mem, f) then mem[f].entries[i]
    else if f in mem && mem[f].Bytes? && |mem[f].data| == 4096 then WordIn(mem[f].data, i)
    else ABSENT
  }

  function SetEntry(mem: Memory, f: nat, i: Index, e: Pte): Memory
    requires IsTable(mem, f)
  {
    mem[f := Table(mem[f].entries[i := e])]
  }

  // --------------------------------------------------------- virtual addresses

  /** The four table indices of a virtual page. */
  datatype Vpn = Vpn(i4: Index, i3: Index, i2: Index, i1: Index)

  /** Bits 39 to 47, 30 to 38, 21 to 29 and 12 to 20 of the address. */
  function VpnOf(virt: nat): Vpn {
    var p := virt / 0x1000;
    Vpn(p / 512 / 512 / 512 % 512, p / 512 / 512 % 512, p / 512 % 512, p % 512)
  }

  /** The number of a page among the 2^36 pages of the 48-bit address space. */
  function PageNumber(virt: nat): nat {
    virt / 0x1000 % 0x10_0000_0000
  }

  function Number(v: Vpn): nat {
    512 * (512 * (512 * v.i4 + v.i3) + v.i2) + v.i1
  }

  lemma OneDigit(a: nat, b: Index, c: nat, d: Index)
    requires 512 * a + b == 512 * c + d
    ensures a == c && b == d
  {
  }

  lemma NumberInjective(v: Vpn, w: Vpn)
    requires Number(v) == Number(w)
    ensures v == w
  {
    OneDigit(512 * (512 * v.i4 + v.i3) + v.i2, v.i1, 512 * (512 * w.i4 + w.i3) + w.i2, w.i1);
    OneDigit(512 * v.i4 + v.i3, v.i2, 512 * w.i4 + w.i3, w.i2);
    OneDigit(v.i4, v.i3, w.i4, w.i3);
  }

  lemma PageDigits(virt: nat)
    ensures PageNumber(virt) == Number(VpnOf(virt))
  {
    var p1 := virt / 0x1000;
    var p2 := p1 / 512;
    var p3 := p2 / 512;
    var p4 := p3 / 512;
    NumberMod(p4 / 512, Vpn(p4 % 512, p3 % 512, p2 % 512, p1 % 512), p1);
  }

  lemma NumberMod(q: nat, v: Vpn, p: nat)
    requires p == 512 * (512 * (512 * (512 * q + v.i4) + v.i3) + v.i2) + v.i1
    ensures p % 0x10_0000_0000 == Number(v)
  {
    NumberSmall(v);
    assert p == 0x10_0000_0000 * q + Number(v);
    Remainder(q, Number(v));
  }

  lemma NumberSmall(v: Vpn)
    ensures Number(v) < 0x10_0000_0000
  {
  }

  lemma Remainder(q: nat, r: nat)
    requires r < 0x10_0000_0000
    ensures (0x10_0000_0000 * q + r) % 0x10_0000_0000 == r
  {
  }

  /** Two addresses have the same indices exactly when they lie in the same 48-bit page. */
  lemma SameVpn(v: nat, w: nat)
    ensures VpnOf(v) == VpnOf(w) <==> PageNumber(v) == PageNumber(w)
  {
    PageDigits(v);
    PageDigits(w);
    if PageNumber(v) == PageNumber(w) { NumberInjective(VpnOf(v), VpnOf(w)); }
  }

  // ------------------------------------------------------------------ walking

  datatype Leaf = NotMapped | Huge1G(e: Pte) | Huge2M(e: Pte) | Mapped(e: Pte)

  /** The hardware walk from the root table in frame root. */
  function Walk(mem: Memory, root: nat, v: Vpn): Leaf {
    var e4 := Entry(mem, root, v.i4);
    if !e4.present then NotMapped else
    var e3 := Entry(mem, e4.frame, v.i3);
    if !e3.present then NotMapped else if e3.huge then Huge1G(e3) else
    var e2 := Entry(mem, e3.frame, v.i2);
    if !e2.present then NotMapped else if e2.huge then Huge2M(e2) else
    var e1 := Entry(mem, e2.frame, v.i1);
    if !e1.present then NotMapped else Mapped(e1)
  }

  /** vmm_virt_to_phys: the same walk without a look at the huge bit. */
  function VirtToPhys(mem: Memory, root: nat, virt: nat): nat {
    var v := VpnOf(virt);
    var e4 := Entry(mem, root, v.i4);
    if !e4.present then 0 else
    var e3 := Entry(mem, e4.frame, v.i3);
    if !e3.present then 0 else
    var e2 := Entry(mem, e3.frame, v.i2);
    if !e2.present then 0 else
    var e1 := Entry(mem, e2.frame, v.i1);
    if !e1.present then 0 else e1.frame * 0x1000 + virt % 0x1000
  }

  /** Where the hardware finds the byte at virt. */
  function Physical(l: Leaf, virt: nat): nat {
    match l
    case NotMapped => 0
    case Mapped(e) => e.frame * 0x1000 + virt % 0x1000
    case Huge2M(e) => e.frame * 0x1000 + virt % 0x20_0000
    case Huge1G(e) => e.frame * 0x1000 + virt % 0x4000_0000
  }

  predicate MeetsHuge(l: Leaf) {
    l.Huge2M? || l.Huge1G?
  }

  lemma VirtToPhysIsWalk(mem: Memory, root: nat, virt: nat)
    requires !MeetsHuge(Walk(mem, root, VpnOf(virt)))
    ensures VirtToPhys(mem, root, virt) == Physical(Walk(mem, root, VpnOf(virt)), virt)
  {
  }

  /** Where the walk ends at a 2 MiB page, vmm_virt_to_phys takes the first frame of that
      page for a page table and answers with one of its words. */
  lemma VirtToPhysUnderHuge(mem: Memory, root: nat, virt: nat)
    requires Walk(mem, root, VpnOf(virt)).Huge2M?
    ensures var w := Entry(mem, Walk(mem, root, VpnOf(virt)).e.frame, VpnOf(virt).i1);
            VirtToPhys(mem, root, virt) == if w.present then w.frame * 0x1000 + virt % 0x1000 else 0
  {
  }

  /** The rights the hardware grants at a page: every level must agree. */
  datatype Rights = Rights(write: bool, user: bool, nx: bool)

  function Granted(mem: Memory, root: nat, v: Vpn): Rights {
    var e4 := Entry(mem, root, v.i4);
    var e3 := Entry(mem, e4.frame, v.i3);
    var e2 := Entry(mem, e3.frame, v.i2);
    var e1 := Entry(mem, e2.frame, v.i1);
    Rights(e4.write && e3.write && e2.write && e1.write,
           e4.user && e3.user && e2.user && e1.user,
           e4.nx || e3.nx || e2.nx || e1.nx)
  }

  /** The rights at a 2 MiB page, which ends the walk one level earlier. */
  function GrantedLarge(mem: Memory, root: nat, v: Vpn): Rights {
    var e4 := Entry(mem, root, v.i4);
    var e3 := Entry(mem, e4.frame, v.i3);
    var e2 := Entry(mem, e3.frame, v.i2);
    Rights(e4.write && e3.write && e2.write, e4.user && e3.user && e2.user, e4.nx || e3.nx || e2.nx)
  }

  // ---------------------------------------------------------- the table tree

  datatype Owner = Kernel | User(id: nat)

  /** The place of a table: the address space that owns it and the indices that lead to it. */
  datatype Node =
    | Root(o: Owner)
    | Pdpt(o: Owner, a: Index)
    | Pd(o: Owner, a: Index, b: Index)
    | Pt(o: Owner, a: Index, b: Index, c: Index)

  predicate SharedSlot(a: Index) { a == 0 || a == 511 }

  /** Top-level slots 0 and 511 of every space lead to the kernel's tables. */
  function Via(o: Owner, a: Index): Owner {
    if SharedSlot(a) then Kernel else o
  }

  function Child(n: Node, i: Index): Node
    requires !n.Pt?
  {
    match n
    case Root(o) => Pdpt(Via(o, i), i)
    case Pdpt(o, a) => Pd(o, a, i)
    case Pd(o, a, b) => Pt(o, a, b, i)
  }

  function Parent(n: Node): Node
    requires !n.Root?
  {
    match n
    case Pdpt(o, a) => Root(o)
    case Pd(o, a, b) => Pdpt(o, a)
    case Pt(o, a, b, c) => Pd(o, a, b)
  }

  function PdOf(o: Owner, v: Vpn): Node { Pd(Via(o, v.i4), v.i4, v.i3) }

  function PtOf(o: Owner, v: Vpn): Node { Pt(Via(o, v.i4), v.i4, v.i3, v.i2) }

  /** The word at index i of node n points to the child table, and only then is there one. */
  ghost predicate Linked(mem: Memory, node: map<Node, nat>, n: Node, i: Index)
    requires n in node && !n.Pt?
  {
    var e := Entry(mem, node[n], i);
    && (Child(n, i) in node <==> e.present && !e.huge)
    && (Child(n, i) in node ==> e.frame == node[Child(n, i)] && e.write && !e.nx)
    && (e.huge ==> e.present && n.Pd? && n.o.Kernel?)
  }

  ghost predicate Injective(node: map<Node, nat>) {
    forall m, n :: m in node && n in node && node[m] == node[n] ==> m == n
  }

  /** Every table has one parent word; the shared slots are the only exception. */
  ghost predicate Tree(mem: Memory, node: map<Node, nat>) {
    && Root(Kernel) in node && Pdpt(Kernel, 0) in node && Pdpt(Kernel, 511) in node
    && Injective(node)
    && (forall n :: n in node ==> IsTable(mem, node[n]))
    && (forall n, i: Index :: n in node && !n.Pt? ==> Linked(mem, node, n, i))
    && (forall n :: n in node && !n.Root? ==> Parent(n) in node && Via(n.o, n.a) == n.o)
  }

  /** The leaf of page v in space o, read off the tree. */
  ghost function LeafAt(mem: Memory, node: map<Node, nat>, o: Owner, v: Vpn): Leaf {
    if PtOf(o, v) in node then
      var e := Entry(mem, node[PtOf(o, v)], v.i1);
      if e.present then Mapped(e) else NotMapped
    else if PdOf(o, v) in node then
      var e := Entry(mem, node[PdOf(o, v)], v.i2);
      if e.present then Huge2M(e) else NotMapped
    else NotMapped
  }

  lemma WalkIsLeafAt(mem: Memory, node: map<Node, nat>, o: Owner, v: Vpn)
    requires Tree(mem, node) && Root(o) in node
    ensures Walk(mem, node[Root(o)], v) == LeafAt(mem, node, o, v)
  {
    var s := Via(o, v.i4);
    var n3, n2, n1 := Pdpt(s, v.i4), Pd(s, v.i4, v.i3), Pt(s, v.i4, v.i3, v.i2);
    assert Child(Root(o), v.i4) == n3 && Parent(n2) == n3 && Parent(n1) == n2;
    assert Linked(mem, node, Root(o), v.i4);
    if n3 in node {
      assert Child(n3, v.i3) == n2 && Linked(mem, node, n3, v.i3);
      if n2 in node {
        assert Child(n2, v.i2) == n1 && Linked(mem, node, n2, v.i2);
      }
    }
  }

  // ----------------------------------------------- what the operations preserve

  lemma EntryAfterSet(mem: Memory, f: nat, i: Index, e: Pte, g: nat, j: Index)
    requires IsTable(mem, f)
    ensures IsTable(SetEntry(mem, f, i, e), g) <==> IsTable(mem, g)
    ensures Entry(SetEntry(mem, f, i, e), g, j) == if g == f && j == i then e else Entry(mem, g, j)
  {
  }

  ghost predicate SameLeaves(mem: Memory, node: map<Node, nat>, mem': Memory, node': map<Node, nat>) {
    forall o, v :: LeafAt(mem', node', o, v) == LeafAt(mem, node, o, v)
  }

  lemma SameAt(mem: Memory, node: map<Node, nat>, mem': Memory, node': map<Node, nat>, o: Owner, v: Vpn)
    requires SameLeaves(mem, node, mem', node')
    ensures LeafAt(mem', node', o, v) == LeafAt(mem, node, o, v)
  {
  }

  /** The leaf of page v, in space o and in every space that reaches it through the
      same tables, becomes l; every other leaf of every space stays. */
  ghost predicate LeafSet(mem: Memory, node: map<Node, nat>, mem': Memory, node': map<Node, nat>, o: Owner, v: Vpn,
                          l: Leaf)
  {
    forall t, w :: LeafAt(mem', node', t, w)
                   == if w == v && Via(t, v.i4) == Via(o, v.i4) then l else LeafAt(mem, node, t, w)
  }

  lemma NothingSet(mem: Memory, node: map<Node, nat>, o: Owner, v: Vpn)
    ensures LeafSet(mem, node, mem, node, o, v, LeafAt(mem, node, o, v))
  {
  }

  lemma LeafSetAfterSame(mem: Memory, node: map<Node, nat>, mem1: Memory, node1: map<Node, nat>,
                         mem2: Memory, node2: map<Node, nat>, o: Owner, v: Vpn, l: Leaf)
    requires SameLeaves(mem, node, mem1, node1) && LeafSet(mem1, node1, mem2, node2, o, v, l)
    ensures LeafSet(mem, node, mem2, node2, o, v, l)
  {
  }

  /** Memory may change anywhere outside the tables. */
  lemma OutsideWrite(mem: Memory, mem': Memory, node: map<Node, nat>)
    requires Tree(mem, node)
    requires forall n :: n in node ==> node[n] in mem' && mem'[node[n]] == mem[node[n]]
    ensures Tree(mem', node) && SameLeaves(mem, node, mem', node)
  {
    forall n, i: Index | n in node && !n.Pt? ensures Linked(mem', node, n, i) { assert Linked(mem, node, n, i); }
  }

  /** Setting the user bit of an inner word changes no leaf. */
  lemma SetUser(mem: Memory, node: map<Node, nat>, n: Node, i: Index)
    requires Tree(mem, node) && n in node && !n.Pt? && Child(n, i) in node
    ensures var mem' := SetEntry(mem, node[n], i, Entry(mem, node[n], i).(user := true));
            Tree(mem', node) && SameLeaves(mem, node, mem', node)
  {
    var e := Entry(mem, node[n], i).(user := true);
    var mem' := SetEntry(mem, node[n], i, e);
    assert Linked(mem, node, n, i);
    forall m, j: Index | m in node
      ensures IsTable(mem', node[m])
      ensures Entry(mem', node[m], j) == if m == n && j == i then e else Entry(mem, node[m], j)
    {
      EntryAfterSet(mem, node[n], i, e, node[m], j);
    }
    forall m, j: Index | m in node && !m.Pt? ensures Linked(mem', node, m, j) { assert Linked(mem, node, m, j); }
    forall o, v ensures LeafAt(mem', node, o, v) == LeafAt(mem, node, o, v) {
      if PdOf(o, v) == n && v.i2 == i { assert Child(n, i) == PtOf(o, v); }
    }
  }

  ghost predicate Fresh(node: map<Node, nat>, f: nat) {
    forall m :: m in node ==> node[m] != f
  }

  /** The words after a fresh table f was hung under word i of node n. */
  lemma EntriesAfterAdd(mem: Memory, node: map<Node, nat>, n: Node, i: Index, f: nat, e: Pte)
    requires Tree(mem, node) && n in node && Fresh(node, f)
    ensures var mem' := SetEntry(mem[f := EmptyTable()], node[n], i, e);
            && IsTable(mem', f) && (forall j: Index :: Entry(mem', f, j) == ABSENT)
            && (forall m :: m in node ==> IsTable(mem', node[m]))
            && (forall m, j: Index :: m in node ==>
                  Entry(mem', node[m], j) == if m == n && j == i then e else Entry(mem, node[m], j))
  {
    var mem0 := mem[f := EmptyTable()];
    forall m, j: Index | m in node
      ensures IsTable(SetEntry(mem0, node[n], i, e), node[m])
      ensures Entry(SetEntry(mem0, node[n], i, e), node[m], j) == if m == n && j == i then e else Entry(mem, node[m], j)
    {
      EntryAfterSet(mem0, node[n], i, e, node[m], j);
    }
  }

  lemma OnlyParent(mem: Memory, node: map<Node, nat>, n: Node, i: Index)
    requires Tree(mem, node) && n in node && !n.Pt? && !Entry(mem, node[n], i).present
    ensures Child(n, i) !in node && Parent(Child(n, i)) == n && Child(n, i).o == n.o
    ensures !Child(n, i).Root? && Via(n.o, Child(n, i).a) == n.o
    ensures forall m: Node, j: Index :: !m.Pt? && Child(m, j) == Child(n, i) ==> m == n && j == i
  {
    assert Linked(mem, node, n, i);
    if n.Root? {
      assert !SharedSlot(i);
    } else {
      assert Via(n.o, n.a) == n.o;
    }
  }

  /** Hanging a fresh empty table under an absent word keeps the tree. */
  lemma AddTable(mem: Memory, node: map<Node, nat>, n: Node, i: Index, f: nat, e: Pte)
    requires Tree(mem, node) && n in node && !n.Pt? && !Entry(mem, node[n], i).present && Fresh(node, f)
    requires e.present && !e.huge && e.frame == f && e.write && !e.nx
    ensures Tree(SetEntry(mem[f := EmptyTable()], node[n], i, e), node[Child(n, i) := f])
  {
    var mem' := SetEntry(mem[f := EmptyTable()], node[n], i, e);
    var k := Child(n, i);
    var node' := node[k := f];
    EntriesAfterAdd(mem, node, n, i, f, e);
    OnlyParent(mem, node, n, i);
    forall m, j: Index | m in node' && !m.Pt? ensures Linked(mem', node', m, j) {
      if m == k {
        assert Parent(Child(k, j)) == k;
      } else {
        assert Linked(mem, node, m, j);
      }
    }
  }

  /** ... and changes no leaf. */
  lemma AddTableLeaves(mem: Memory, node: map<Node, nat>, n: Node, i: Index, f: nat, e: Pte)
    requires Tree(mem, node) && n in node && !n.Pt? && !Entry(mem, node[n], i).present && Fresh(node, f)
    ensures SameLeaves(mem, node, SetEntry(mem[f := EmptyTable()], node[n], i, e), node[Child(n, i) := f])
  {
    var mem' := SetEntry(mem[f := EmptyTable()], node[n], i, e);
    var k := Child(n, i);
    var node' := node[k := f];
    EntriesAfterAdd(mem, node, n, i, f, e);
    OnlyParent(mem, node, n, i);
    forall o, v ensures LeafAt(mem', node', o, v) == LeafAt(mem, node, o, v) {
      assert Parent(PtOf(o, v)) == PdOf(o, v);
      if k == PtOf(o, v) { assert n == PdOf(o, v) && i == v.i2; }
    }
  }

  /** Writing a word of a page table changes the leaf of that page, in every space
      that reaches the table, and no other leaf. */
  lemma SetLeaf(mem: Memory, node: map<Node, nat>, o: Owner, v: Vpn, e: Pte)
    requires Tree(mem, node) && PtOf(o, v) in node
    ensures var mem' := SetEntry(mem, node[PtOf(o, v)], v.i1, e);
            Tree(mem', node) && LeafSet(mem, node, mem', node, o, v, if e.present then Mapped(e) else NotMapped)
  {
    var n, i := PtOf(o, v), v.i1;
    var mem' := SetEntry(mem, node[n], i, e);
    forall m, j: Index | m in node
      ensures IsTable(mem', node[m])
      ensures Entry(mem', node[m], j) == if m == n && j == i then e else Entry(mem, node[m], j)
    {
      EntryAfterSet(mem, node[n], i, e, node[m], j);
    }
    forall m, j: Index | m in node && !m.Pt? ensures Linked(mem', node, m, j) { assert Linked(mem, node, m, j); }
  }

  /** The root table vmm_create_address_space builds. */
  function NewRoot(mem: Memory, kernelRoot: nat): Page {
    Table(EmptyTable().entries
          [0 := Entry(mem, kernelRoot, 0).(user := true)]
          [511 := Entry(mem, kernelRoot, 511)])
  }

  lemma AddRoot(mem: Memory, node: map<Node, nat>, d: nat, f: nat)
    requires Tree(mem, node) && Root(User(d)) !in node && Fresh(node, f)
    ensures var mem' := mem[f := NewRoot(mem, node[Root(Kernel)])];
            var node' := node[Root(User(d)) := f];
            Tree(mem', node') && SameLeaves(mem, node, mem', node')
  {
    var mem' := mem[f := NewRoot(mem, node[Root(Kernel)])];
    var r := Root(User(d));
    var node' := node[r := f];
    RootOf(mem, node);
    assert IsTable(mem', f) && forall m :: m in node ==> mem'[node[m]] == mem[node[m]];
    forall m, j: Index | m in node' && !m.Pt? ensures Linked(mem', node', m, j) {
      if m == r {
        assert Linked(mem, node, Root(Kernel), j);
        assert !SharedSlot(j) ==> Child(r, j).o == User(d);
      } else {
        assert Linked(mem, node, m, j);
      }
    }
  }

  /** Before any table is hung under it, a space sees the shared slots and nothing else. */
  lemma FreshSpace(mem: Memory, node: map<Node, nat>, d: nat, v: Vpn)
    requires Tree(mem, node) && Root(User(d)) !in node
    ensures LeafAt(mem, node, User(d), v) == if SharedSlot(v.i4) then LeafAt(mem, node, Kernel, v) else NotMapped
  {
    RootOf(mem, node);
  }

  lemma RootOf(mem: Memory, node: map<Node, nat>)
    requires Tree(mem, node)
    ensures forall n :: n in node ==> Root(n.o) in node
  {
    forall n | n in node ensures Root(n.o) in node {
      match n
      case Root(_) =>
      case Pdpt(_, _) => assert Parent(n) in node;
      case Pd(_, _, _) => assert Parent(n) in node && Parent(Parent(n)) in node;
      case Pt(_, _, _, _) => assert Parent(n) in node && Parent(Parent(n)) in node && Parent(Parent(Parent(n))) in node;
    }
  }

  ghost function Without(node: map<Node, nat>, o: Owner): map<Node, nat> {
    map n | n in node && n.o != o :: node[n]
  }

  /** Taking a user space away leaves the tree of the others as it was. */
  lemma RemoveSpace(mem: Memory, node: map<Node, nat>, d: nat)
    requires Tree(mem, node)
    ensures Tree(mem, Without(node, User(d)))
    ensures forall o, v :: o != User(d) ==> LeafAt(mem, Without(node, User(d)), o, v) == LeafAt(mem, node, o, v)
  {
    var node' := Without(node, User(d));
    forall m, j: Index | m in node' && !m.Pt? ensures Linked(mem, node', m, j) {
      assert Linked(mem, node, m, j);
      assert Child(m, j).o == m.o || Child(m, j).o == Kernel;
    }
    forall n | n in node' && !n.Root? ensures Parent(n) in node' { assert Parent(n).o == n.o; }
  }

  // ------------------------------------------------------- tearing a space down

  /** The tables vmm_destroy_address_space has given back when its three loops stand at a, b, c. */
  predicate Passed(n: Node, a: nat, b: nat, c: nat) {
    match n
    case Root(_) => false
    case Pdpt(_, x) => x < a
    case Pd(_, x, y) => x < a || (x == a && y < b)
    case Pt(_, x, y, z) => x < a || (x == a && (y < b || (y == b && z < c)))
  }

  ghost function Visited(node: map<Node, nat>, o: Owner, a: nat, b: nat, c: nat): set<nat> {
    set n | n in node && n.o == o && Passed(n, a, b, c) :: node[n]
  }

  /** All tables a space owns, its root aside. */
  ghost function Owned(node: map<Node, nat>, o: Owner): set<nat> {
    set n | n in node && n.o == o && !n.Root? :: node[n]
  }

  lemma VisitNone(mem: Memory, node: map<Node, nat>, d: nat)
    requires Tree(mem, node)
    ensures Visited(node, User(d), 1, 0, 0) == {} && Visited(node, User(d), 511, 0, 0) == Owned(node, User(d))
  {
    forall n | n in node && n.o == User(d) && !n.Root? ensures 1 <= n.a < 511 {}
  }

  lemma VisitPt(mem: Memory, node: map<Node, nat>, d: nat, a: Index, b: Index, c: Index)
    requires Tree(mem, node) && Pd(User(d), a, b) in node
    ensures var e := Entry(mem, node[Pd(User(d), a, b)], c);
            var s, s' := Visited(node, User(d), a, b, c), Visited(node, User(d), a, b, c + 1);
            if e.present then
              && Pt(User(d), a, b, c) in node && e.frame == node[Pt(User(d), a, b, c)] && e.frame !in s
              && s' == s + {e.frame}
            else s' == s
  {
    var n := Pd(User(d), a, b);
    assert Child(n, c) == Pt(User(d), a, b, c) && Linked(mem, node, n, c);
    Grown(node, User(d), Child(n, c), a, b, c, a, b, c + 1);
  }

  /** The loops pass the places one by one. */
  lemma Grown(node: map<Node, nat>, o: Owner, k: Node, a: nat, b: nat, c: nat, a': nat, b': nat, c': nat)
    requires Injective(node) && k.o == o && !Passed(k, a, b, c)
    requires forall n :: n in node && n.o == o ==> (Passed(n, a', b', c') <==> n == k || Passed(n, a, b, c))
    ensures var s, s' := Visited(node, o, a, b, c), Visited(node, o, a', b', c');
            if k in node then node[k] !in s && s' == s + {node[k]} else s' == s
  {
    var s, s' := Visited(node, o, a, b, c), Visited(node, o, a', b', c');
    forall x | x in s ensures x in s' {
      var n :| n in node && n.o == o && Passed(n, a, b, c) && node[n] == x;
      assert Passed(n, a', b', c');
    }
    forall x | x in s' ensures x in s || (k in node && x == node[k]) {
      var n :| n in node && n.o == o && Passed(n, a', b', c') && node[n] == x;
    }
    if k in node { assert Passed(k, a', b', c'); }
  }

  lemma VisitPd(mem: Memory, node: map<Node, nat>, d: nat, a: Index, b: Index)
    requires Tree(mem, node) && Pdpt(User(d), a) in node
    ensures var e := Entry(mem, node[Pdpt(User(d), a)], b);
            var s, s' := Visited(node, User(d), a, b, if e.present then 512 else 0),
                Visited(node, User(d), a, b + 1, 0);
            if e.present then
              Pd(User(d), a, b) in node && e.frame == node[Pd(User(d), a, b)] && e.frame !in s && s' == s + {e.frame}
            else s' == s
  {
    var n := Pdpt(User(d), a);
    var k := Pd(User(d), a, b);
    assert Child(n, b) == k && Linked(mem, node, n, b);
    forall m | m in node && m.Pt? ensures Parent(m) in node {}
    Grown(node, User(d), k, a, b, if k in node then 512 else 0, a, b + 1, 0);
  }

  lemma VisitPdpt(mem: Memory, node: map<Node, nat>, d: nat, a: Index)
    requires Tree(mem, node) && Root(User(d)) in node && 1 <= a < 511
    ensures var e := Entry(mem, node[Root(User(d))], a);
            var s, s' := Visited(node, User(d), a, if e.present then 512 else 0, 0),
                Visited(node, User(d), a + 1, 0, 0);
            if e.present then
              Pdpt(User(d), a) in node && e.frame == node[Pdpt(User(d), a)] && e.frame !in s && s' == s + {e.frame}
            else s' == s
  {
    var n := Root(User(d));
    var k := Pdpt(User(d), a);
    assert Child(n, a) == k && Linked(mem, node, n, a);
    forall m | m in node && m.Pt? ensures Parent(m) in node && Parent(Parent(m)) in node {}
    forall m | m in node && m.Pd? ensures Parent(m) in node {}
    Grown(node, User(d), k, a, if k in node then 512 else 0, 0, a + 1, 0, 0);
  }

  /** The tables found from the words of memory alone, through slots 1 to 510 of a root. */
  ghost function Reachable(mem: Memory, root: nat): set<nat> {
    (set a: Index | 1 <= a < 511 && Entry(mem, root, a).present :: Entry(mem, root, a).frame)
    + (set a: Index, b: Index | 1 <= a < 511 && 0 <= b < 512 && Entry(mem, root, a).present
                                && Entry(mem, Entry(mem, root, a).frame, b).present
       :: Entry(mem, Entry(mem, root, a).frame, b).frame)
    + (set a: Index, b: Index, c: Index | 1 <= a < 511 && 0 <= b < 512 && 0 <= c < 512 && Entry(mem, root, a).present
                                          && Entry(mem, Entry(mem, root, a).frame, b).present
                                          && Entry(mem, Entry(mem, Entry(mem, root, a).frame, b).frame, c).present
       :: Entry(mem, Entry(mem, Entry(mem, root, a).frame, b).frame, c).frame)
  }

  /** A space owns exactly the tables that memory shows below its private slots. */
  lemma OwnedIsReachable(mem: Memory, node: map<Node, nat>, d: nat)
    requires Tree(mem, node) && Root(User(d)) in node
    ensures Owned(node, User(d)) == Reachable(mem, node[Root(User(d))])
  {
    var o, root := User(d), node[Root(User(d))];
    forall a: Index | 1 <= a < 511
      ensures Entry(mem, root, a).present <==> Pdpt(o, a) in node
      ensures Pdpt(o, a) in node ==> Entry(mem, root, a).frame == node[Pdpt(o, a)]
    {
      assert Child(Root(o), a) == Pdpt(o, a) && Linked(mem, node, Root(o), a);
    }
    forall a: Index, b: Index | Pdpt(o, a) in node
      ensures Entry(mem, node[Pdpt(o, a)], b).present <==> Pd(o, a, b) in node
      ensures Pd(o, a, b) in node ==> Entry(mem, node[Pdpt(o, a)], b).frame == node[Pd(o, a, b)]
    {
      assert Child(Pdpt(o, a), b) == Pd(o, a, b) && Linked(mem, node, Pdpt(o, a), b);
    }
    forall a: Index, b: Index, c: Index | Pd(o, a, b) in node
      ensures Entry(mem, node[Pd(o, a, b)], c).present <==> Pt(o, a, b, c) in node
      ensures Pt(o, a, b, c) in node ==> Entry(mem, node[Pd(o, a, b)], c).frame == node[Pt(o, a, b, c)]
    {
      assert Child(Pd(o, a, b), c) == Pt(o, a, b, c) && Linked(mem, node, Pd(o, a, b), c);
    }
    forall f | f in Owned(node, o) ensures f in Reachable(mem, root) {
      var n :| n in node && n.o == o && !n.Root? && node[n] == f;
      assert Parent(n) in node && Via(o, n.a) == o;
      if n.Pt? { assert Parent(Parent(n)) in node; }
    }
    forall f | f in Reachable(mem, root) ensures f in Owned(node, o) {}
  }
}
