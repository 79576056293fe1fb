/** kernel/vmm.c: address spaces made of page tables that are built on demand. */
module Vmm {
  import opened PageTables
  import opened Pmm
  import opened Unmapping
  import V = VmmRuns

  /** VMM_FLAG_WRITE, VMM_FLAG_USER and VMM_FLAG_NX; the code always adds VMM_FLAG_PRESENT. */
  datatype Flags = Flags(write: bool, user: bool, nx: bool)

  /** A call that panics never returns; the model says which check stopped it. */
  datatype Outcome = Done | OutOfMemory | ThroughHugePage | AlreadyMapped

  function LeafPte(frame: nat, flags: Flags): Pte {
    Pte(true, frame, flags.write, flags.user, false, flags.nx, false)
  }

  // ------------------------------------------------------ what steps may change

  predicate UserWord(mem: Memory, f: nat, i: Index) {
    Entry(mem, f, i).present && Entry(mem, f, i).user
  }

  /** The tables only grow, by frames that were free; every frame taken is a table; user bits are never taken
      away; and a frame that was in use and held no table keeps its contents. */
  ghost predicate Grows(mem: Memory, node: map<Node, nat>, free: set<nat>,
                        mem': Memory, node': map<Node, nat>, free': set<nat>)
  {
    && free' <= free
    && (forall n :: n in node ==> n in node' && node'[n] == node[n])
    && (forall n :: n in node' && n !in node ==> !n.Root? && node'[n] in free && node'[n] !in free')
    && (forall f :: f in free && f !in free' ==> !Fresh(node', f))
    && (forall f :: f in mem && f !in free && Fresh(node, f) ==> f in mem' && mem'[f] == mem[f])
    && (forall n, i: Index :: n in node && UserWord(mem, node[n], i) ==> UserWord(mem', node[n], i))
  }

  /** Tables may be added, but no leaf of any space changes. */
  ghost predicate Deepens(mem: Memory, node: map<Node, nat>, free: set<nat>,
                          mem': Memory, node': map<Node, nat>, free': set<nat>)
  {
    Grows(mem, node, free, mem', node', free') && SameLeaves(mem, node, mem', node')
  }

  lemma DeepensNot(mem: Memory, node: map<Node, nat>, free: set<nat>)
    ensures Deepens(mem, node, free, mem, node, free)
  {
  }

  lemma GrowsTwice(mem: Memory, node: map<Node, nat>, free: set<nat>, mem1: Memory, node1: map<Node, nat>,
                   free1: set<nat>,
                   mem2: Memory, node2: map<Node, nat>, free2: set<nat>)
    requires Grows(mem, node, free, mem1, node1, free1) && Grows(mem1, node1, free1, mem2, node2, free2)
    ensures Grows(mem, node, free, mem2, node2, free2)
  {
  }

  lemma DeepensTwice(mem: Memory, node: map<Node, nat>, free: set<nat>, mem1: Memory, node1: map<Node, nat>,
                     free1: set<nat>,
                     mem2: Memory, node2: map<Node, nat>, free2: set<nat>)
    requires Deepens(mem, node, free, mem1, node1, free1) && Deepens(mem1, node1, free1, mem2, node2, free2)
    ensures Deepens(mem, node, free, mem2, node2, free2)
  {
    GrowsTwice(mem, node, free, mem1, node1, free1, mem2, node2, free2);
  }

  /** Every inner word on the way to page v admits users. */
  ghost predicate UserPath(mem: Memory, node: map<Node, nat>, o: Owner, v: Vpn) {
    var n3, n2 := Pdpt(Via(o, v.i4), v.i4), Pd(Via(o, v.i4), v.i4, v.i3);
    && Root(o) in node && n3 in node && n2 in node
    && UserWord(mem, node[Root(o)], v.i4) && UserWord(mem, node[n3], v.i3) && UserWord(mem, node[n2], v.i2)
  }

  /** What a table walk in progress knows about the leaf it is heading for. */
  lemma LeafCases(mem: Memory, node: map<Node, nat>, o: Owner, v: Vpn)
    requires Tree(mem, node) && Root(o) in node
    ensures var s := Via(o, v.i4);
            var n3, n2, n1, l := Pdpt(s, v.i4), Pd(s, v.i4, v.i3), PtOf(o, v), LeafAt(mem, node, o, v);
            && !l.Huge1G?
            && (!Entry(mem, node[Root(o)], v.i4).present ==> l.NotMapped?)
            && (n3 in node && !Entry(mem, node[n3], v.i3).present ==> l.NotMapped?)
            && (n2 in node && !Entry(mem, node[n2], v.i2).present ==> l.NotMapped?)
            && (n2 in node ==> (Entry(mem, node[n2], v.i2).huge <==> l.Huge2M?))
            && (n1 in node ==> !l.Huge2M? && (Entry(mem, node[n1], v.i1).present <==> l.Mapped?))
  {
    var s := Via(o, v.i4);
    var n3, n2, n1 := Pdpt(s, v.i4), Pd(s, v.i4, v.i3), PtOf(o, v);
    assert Parent(n1) == n2 && Parent(n2) == n3;
    assert Child(Root(o), v.i4) == n3 && Child(n3, v.i3) == n2 && Child(n2, v.i2) == n1;
    assert Linked(mem, node, Root(o), v.i4);
    if n3 in node { assert Linked(mem, node, n3, v.i3); }
    if n2 in node { assert Linked(mem, node, n2, v.i2); }
  }

  /** The AddressSpace record in frame d is in use and points to the root of its space. */
  ghost predicate SpaceOk(mem: Memory, node: map<Node, nat>, free: set<nat>, total: nat, d: nat)
    requires Root(User(d)) in node
  {
    0 < d < total && d !in free && d in mem && mem[d] == Space(node[Root(User(d))])
  }

  /** Tables form a tree, no table is in a free frame, and the frames of user spaces
      are ones that pmm_free_page can give back. */
  ghost predicate Sound(mem: Memory, node: map<Node, nat>, free: set<nat>, total: nat) {
    && Tree(mem, node)
    && (forall n :: n in node ==> node[n] !in free)
    && (forall n :: n in node && n.o.User? ==> 0 < node[n] < total)
    && (forall d :: Root(User(d)) in node ==> SpaceOk(mem, node, free, total, d))
  }

  lemma UpgradeKeeps(mem: Memory, node: map<Node, nat>, free: set<nat>, total: nat, n: Node, i: Index)
    requires Sound(mem, node, free, total) && n in node && !n.Pt? && Child(n, i) in node
    ensures var mem' := SetEntry(mem, node[n], i, Entry(mem, node[n], i).(user := true));
            && Sound(mem', node, free, total) && SameLeaves(mem, node, mem', node)
            && Grows(mem, node, free, mem', node, free)
            && Entry(mem', node[n], i) == Entry(mem, node[n], i).(user := true)
  {
    SetUser(mem, node, n, i);
    var e := Entry(mem, node[n], i).(user := true);
    assert Linked(mem, node, n, i);
    forall m, j: Index | m in node && UserWord(mem, node[m], j)
      ensures UserWord(SetEntry(mem, node[n], i, e), node[m], j)
    {
      EntryAfterSet(mem, node[n], i, e, node[m], j);
    }
  }

  lemma CreateKeeps(mem: Memory, node: map<Node, nat>, free: set<nat>, total: nat, n: Node, i: Index, f: nat, e: Pte)
    requires Sound(mem, node, free, total) && n in node && !n.Pt? && !Entry(mem, node[n], i).present
    requires f in free && 0 < f < total
    requires e.present && !e.huge && e.frame == f && e.write && !e.nx
    ensures Sound(SetEntry(mem[f := EmptyTable()], node[n], i, e), node[Child(n, i) := f], free - {f}, total)
  {
    AddTable(mem, node, n, i, f, e);
    OnlyParent(mem, node, n, i);
    var mem', node' := SetEntry(mem[f := EmptyTable()], node[n], i, e), node[Child(n, i) := f];
    forall d | Root(User(d)) in node' ensures SpaceOk(mem', node', free - {f}, total, d) {
      assert SpaceOk(mem, node, free, total, d);
      assert IsTable(mem, node[n]);
    }
  }

  lemma CreateGrows(mem: Memory, node: map<Node, nat>, free: set<nat>, total: nat, n: Node, i: Index, f: nat, e: Pte)
    requires Sound(mem, node, free, total) && n in node && !n.Pt? && !Entry(mem, node[n], i).present && f in free
    ensures var mem', node' := SetEntry(mem[f := EmptyTable()], node[n], i, e), node[Child(n, i) := f];
            && Grows(mem, node, free, mem', node', free - {f}) && Entry(mem', node[n], i) == e
  {
    EntriesAfterAdd(mem, node, n, i, f, e);
    OnlyParent(mem, node, n, i);
    assert !Fresh(node[Child(n, i) := f], f) by { assert node[Child(n, i) := f][Child(n, i)] == f; }
  }

  /** The last step of vmm_map and of vmm_unmap. */
  lemma LeafKeeps(mem: Memory, node: map<Node, nat>, free: set<nat>, total: nat, o: Owner, v: Vpn, e: Pte)
    requires Sound(mem, node, free, total) && PtOf(o, v) in node
    ensures IsTable(mem, node[PtOf(o, v)])
    ensures var mem' := SetEntry(mem, node[PtOf(o, v)], v.i1, e);
            && Sound(mem', node, free, total)
            && LeafSet(mem, node, mem', node, o, v, if e.present then Mapped(e) else NotMapped)
            && (!Entry(mem, node[PtOf(o, v)], v.i1).present ==> Grows(mem, node, free, mem', node, free))
            && (forall f :: f in mem && f != node[PtOf(o, v)] ==> f in mem' && mem'[f] == mem[f])
  {
    SetLeaf(mem, node, o, v, e);
    var pt := node[PtOf(o, v)];
    var mem' := SetEntry(mem, pt, v.i1, e);
    forall d | Root(User(d)) in node ensures SpaceOk(mem', node, free, total, d) {
      assert SpaceOk(mem, node, free, total, d);
    }
    forall m, j: Index | m in node && UserWord(mem, node[m], j) && !Entry(mem, pt, v.i1).present
      ensures UserWord(mem', node[m], j)
    {
      EntryAfterSet(mem, pt, v.i1, e, node[m], j);
    }
  }

  /** The hardware grants at a page what its leaf says, provided every word on the
      way admits users or the leaf does not. */
  lemma RightsOfLeaf(mem: Memory, node: map<Node, nat>, o: Owner, v: Vpn, e: Pte)
    requires Tree(mem, node) && Root(o) in node && LeafAt(mem, node, o, v) == Mapped(e)
    requires e.user ==> UserPath(mem, node, o, v)
    ensures Granted(mem, node[Root(o)], v) == Rights(e.write, e.user, e.nx)
  {
    var s := Via(o, v.i4);
    var n3, n2 := Pdpt(s, v.i4), Pd(s, v.i4, v.i3);
    assert Child(Root(o), v.i4) == n3 && Child(n3, v.i3) == n2 && Child(n2, v.i2) == PtOf(o, v);
    assert PtOf(o, v) in node && Parent(PtOf(o, v)) == n2 && Parent(n2) == n3;
    assert Linked(mem, node, Root(o), v.i4) && Linked(mem, node, n3, v.i3) && Linked(mem, node, n2, v.i2);
  }

  /** At a huge page nothing above its own word takes a right away from the kernel. */
  lemma RightsOfHuge(mem: Memory, node: map<Node, nat>, o: Owner, v: Vpn)
    requires Tree(mem, node) && Root(o) in node && LeafAt(mem, node, o, v).Huge2M?
    ensures var e, r := LeafAt(mem, node, o, v).e, GrantedLarge(mem, node[Root(o)], v);
            r.write == e.write && r.nx == e.nx && (r.user ==> e.user)
  {
    var s := Via(o, v.i4);
    var n3, n2 := Pdpt(s, v.i4), Pd(s, v.i4, v.i3);
    assert Child(Root(o), v.i4) == n3 && Child(n3, v.i3) == n2 && Parent(n2) == n3;
    assert Linked(mem, node, Root(o), v.i4) && Linked(mem, node, n3, v.i3);
  }

  lemma UserPathKept(mem: Memory, node: map<Node, nat>, free: set<nat>, mem': Memory, node': map<Node, nat>,
                     free': set<nat>,
                     o: Owner, v: Vpn)
    requires Grows(mem, node, free, mem', node', free') && UserPath(mem, node, o, v)
    ensures UserPath(mem', node', o, v)
  {
  }

  /** vmm_create_address_space: the record in frame d, the root table in frame f. */
  lemma NewSpaceKeeps(mem: Memory, node: map<Node, nat>, free: set<nat>, total: nat, d: nat, f: nat)
    requires Sound(mem, node, free, total) && d in free && f in free && d != f && 0 < d < total && 0 < f < total
    ensures Root(User(d)) !in node && Root(Kernel) in node
    ensures var mem', node' := mem[d := Space(f)][f := NewRoot(mem, node[Root(Kernel)])], node[Root(User(d)) := f];
            Sound(mem', node', free - {d} - {f}, total) && SameLeaves(mem, node, mem', node')
  {
    assert Root(User(d)) in node ==> SpaceOk(mem, node, free, total, d);
    var mem1 := mem[d := Space(f)];
    OutsideWrite(mem, mem1, node);
    assert NewRoot(mem1, node[Root(Kernel)]) == NewRoot(mem, node[Root(Kernel)]);
    AddRoot(mem1, node, d, f);
    var mem', node' := mem1[f := NewRoot(mem, node[Root(Kernel)])], node[Root(User(d)) := f];
    forall x | Root(User(x)) in node' ensures SpaceOk(mem', node', free - {d} - {f}, total, x) {
      if x != d { assert SpaceOk(mem, node, free, total, x); }
    }
  }

  /** The record, the root and every table the space owns. */
  ghost function SpaceFrames(node: map<Node, nat>, d: nat): set<nat>
    requires Root(User(d)) in node
  {
    Owned(node, User(d)) + {node[Root(User(d))]} + {d}
  }

  /** vmm_destroy_address_space: the others keep their tables and their leaves. */
  lemma DropSpaceKeeps(mem: Memory, node: map<Node, nat>, free: set<nat>, total: nat, d: nat)
    requires Sound(mem, node, free, total) && Root(User(d)) in node
    ensures Sound(mem, Without(node, User(d)), free + SpaceFrames(node, d), total)
    ensures V.Step(V.Tables(mem, node), V.Destroy(d), V.Tables(mem, Without(node, User(d))))
    ensures var node' := Without(node, User(d)); Root(Kernel) in node' && node'[Root(Kernel)] == node[Root(Kernel)]
  {
    RemoveSpace(mem, node, d);
    var node', free' := Without(node, User(d)), free + SpaceFrames(node, d);
    assert SpaceOk(mem, node, free, total, d);
    forall n | n in node' ensures node'[n] !in free' { assert IsTable(mem, node[n]); }
    forall x | Root(User(x)) in node' ensures SpaceOk(mem, node', free', total, x) {
      assert SpaceOk(mem, node, free, total, x);
      assert forall n :: n in node ==> IsTable(mem, node[n]);
    }
  }

  /** The root table in frame f: slot 0 leads users to the kernel's first tables, slot 511
      is the kernel's own word, and every other word is absent. */
  ghost predicate RootMade(mem: Memory, kernelRoot: nat, mem': Memory, f: nat) {
    && IsTable(mem', f) && UserWord(mem', f, 0) && Entry(mem', f, 0) == Entry(mem, kernelRoot, 0).(user := true)
    && Entry(mem', f, 511) == Entry(mem, kernelRoot, 511)
    && forall i: Index :: 1 <= i < 511 ==> Entry(mem', f, i) == ABSENT
  }

  lemma RootIsMade(mem: Memory, node: map<Node, nat>, mem': Memory, f: nat)
    requires Tree(mem, node) && f in mem' && mem'[f] == NewRoot(mem, node[Root(Kernel)])
    ensures RootMade(mem, node[Root(Kernel)], mem', f)
  {
    assert Linked(mem, node, Root(Kernel), 0) && Child(Root(Kernel), 0) == Pdpt(Kernel, 0);
  }

  /** What vmm_create_address_space leaves: two frames taken, a record and a root that
      shares the kernel's slots 0 (opened to users) and 511, and no leaf changed. */
  ghost predicate Created(mem: Memory, node: map<Node, nat>, free: set<nat>, mem': Memory, node': map<Node, nat>,
                          free': set<nat>,
                          d: nat, f: nat)
  {
    && d in free && f in free && d != f && free' == free - {d} - {f}
    && Root(Kernel) in node && Root(User(d)) !in node && node' == node[Root(User(d)) := f]
    && f in mem' && mem' == mem[d := Space(f)][f := mem'[f]] && RootMade(mem, node[Root(Kernel)], mem', f)
    && SameLeaves(mem, node, mem', node')
    && V.Step(V.Tables(mem, node), V.Create(d), V.Tables(mem', node'))
  }

  /** What destroying space d gives back: its record, and every table at a place of its own. */
  lemma SpaceFramesIff(node: map<Node, nat>, d: nat, x: nat)
    requires Root(User(d)) in node
    ensures x in SpaceFrames(node, d) <==> x == d || exists n :: n in node && n.o == User(d) && node[n] == x
  {
    if exists n :: n in node && n.o == User(d) && node[n] == x {
      var n :| n in node && n.o == User(d) && node[n] == x;
      assert n.Root? ==> n == Root(User(d));
    }
  }

  /** A space that is created and at once destroyed leaves the tables and the free frames as
      they were. */
  lemma CreateDestroy(mem: Memory, node: map<Node, nat>, free: set<nat>, mem': Memory, node': map<Node, nat>,
                      free': set<nat>,
                      d: nat, f: nat)
    requires Tree(mem, node) && Created(mem, node, free, mem', node', free', d, f)
    ensures Root(User(d)) in node' && Without(node', User(d)) == node && free' + SpaceFrames(node', d) == free
  {
    RootOf(mem, node);
    hide Tree, SameLeaves, RootMade, V.Step;
    forall n | n in node ensures n.o != User(d) { assert Root(n.o) in node; }
    assert Owned(node', User(d)) == {};
  }

  lemma MapIsStep(mem: Memory, node: map<Node, nat>, free: set<nat>, mem': Memory, node': map<Node, nat>,
                  free': set<nat>,
                  total: nat, o: Owner, v: Vpn, e: Pte)
    requires Sound(mem, node, free, total) && Sound(mem', node', free', total) && Root(o) in node
    requires Grows(mem, node, free, mem', node', free') && LeafSet(mem, node, mem', node', o, v, Mapped(e))
    ensures V.Step(V.Tables(mem, node), V.Map(o, v, e), V.Tables(mem', node'))
  {
  }

  /** A table, or the root of a space through its record, hangs from word i of frame f. */
  ghost predicate WordNeeded(node: map<Node, nat>, f: nat, i: Index) {
    HangsFrom(node, f, i) || (i == 0 && Root(User(f)) in node)
  }

  /** The tables stay sound through the clearing of a word exactly if nothing hangs from it. */
  lemma SoundAfterClear(mem: Memory, node: map<Node, nat>, free: set<nat>, total: nat, f: nat, i: Index)
    requires Sound(mem, node, free, total)
    ensures Sound(ClearWord(mem, f, i), node, free, total) <==> !WordNeeded(node, f, i)
  {
    TreeAfterClear(mem, node, f, i);
    hide Tree, HangsFrom;
    var mem' := ClearWord(mem, f, i);
    if i == 0 && Root(User(f)) in node {
      assert SpaceOk(mem, node, free, total, f);
      assert !SpaceOk(mem', node, free, total, f);
    } else {
      forall d | Root(User(d)) in node ensures SpaceOk(mem', node, free, total, d) {
        assert SpaceOk(mem, node, free, total, d);
      }
    }
  }

  /** What vmm_unmap leaves, without a huge page on the way and under one. */
  lemma UnmapKeeps(mem: Memory, node: map<Node, nat>, free: set<nat>, total: nat, o: Owner, v: Vpn)
    requires Sound(mem, node, free, total) && Root(o) in node
    ensures var l, t, mem' := LeafAt(mem, node, o, v), UnmapTarget(mem, node[Root(o)], v),
                              UnmapStore(mem, node[Root(o)], v);
            && (t.Fault? <==> l.Huge2M? && l.e.nx)
            && (!MeetsHuge(l) ==>
                  && Sound(mem', node, free, total) && LeafSet(mem, node, mem', node, o, v, NotMapped)
                  && forall f :: f in mem && Fresh(node, f) ==> f in mem' && mem'[f] == mem[f])
            && (MeetsHuge(l) && !t.Fault? ==>
                  && mem' == ClearWord(mem, l.e.frame, v.i1)
                  && (Sound(mem', node, free, total) <==> !WordNeeded(node, l.e.frame, v.i1)))
  {
    var l := LeafAt(mem, node, o, v);
    TargetIs(mem, node, o, v);
    if MeetsHuge(l) {
      SoundAfterClear(mem, node, free, total, l.e.frame, v.i1);
    } else {
      UnmapPlain(mem, node, o, v);
      if PtOf(o, v) in node { LeafKeeps(mem, node, free, total, o, v, ABSENT); }
    }
  }

  /** Where the first frame of a huge page is the page table of some page w, vmm_unmap under
      the huge page unmaps w, in its own space, and leaves every other leaf, the huge page
      included; the tables stay sound. */
  lemma UnmapHits(mem: Memory, node: map<Node, nat>, free: set<nat>, total: nat, o: Owner, v: Vpn, t: Owner, w: Vpn)
    requires Sound(mem, node, free, total) && Root(o) in node && PtOf(t, w) in node && w.i1 == v.i1
    requires var l := LeafAt(mem, node, o, v); l.Huge2M? && !l.e.nx && l.e.frame == node[PtOf(t, w)]
    ensures var mem' := UnmapStore(mem, node[Root(o)], v);
            && Sound(mem', node, free, total) && LeafSet(mem, node, mem', node, t, w, NotMapped)
            && V.Step(V.Tables(mem, node), V.Unmap(o, v), V.Tables(mem', node))
  {
    UnmapKeeps(mem, node, free, total, o, v);
    hide UnmapStore, UnmapTarget;
    LeafKeeps(mem, node, free, total, t, w, ABSENT);
    assert Root(User(node[PtOf(t, w)])) in node ==> SpaceOk(mem, node, free, total, node[PtOf(t, w)]);
  }

  lemma CreateIsStep(mem: Memory, node: map<Node, nat>, free: set<nat>, mem': Memory, node': map<Node, nat>,
                     free': set<nat>,
                     total: nat, d: nat, f: nat)
    requires Sound(mem, node, free, total) && Sound(mem', node', free', total) && Root(User(d)) !in node
    requires SameLeaves(mem, node, mem', node') && node' == node[Root(User(d)) := f]
    ensures V.Step(V.Tables(mem, node), V.Create(d), V.Tables(mem', node'))
  {
  }

  /** The frames given back so far: each once, and exactly those of the set s. */
  ghost predicate Gave(given: seq<nat>, s: set<nat>) {
    && (forall i, j :: 0 <= i < j < |given| ==> given[i] != given[j])
    && (forall x :: x in given <==> x in s)
  }

  /** A frame pmm_free_page will take. */
  ghost predicate InUse(f: nat, free: set<nat>, total: nat) {
    0 < f < total && f !in free
  }

  lemma StepPt(mem: Memory, node: map<Node, nat>, free: set<nat>, total: nat, d: nat, a: Index, b: Index, c: Index)
    requires Sound(mem, node, free, total) && Pd(User(d), a, b) in node
    ensures var e := Entry(mem, node[Pd(User(d), a, b)], c);
            var s, s' := Visited(node, User(d), a, b, c), Visited(node, User(d), a, b, c + 1);
            if e.present then InUse(e.frame, free, total) && e.frame !in s && s' == s + {e.frame} else s' == s
  {
    VisitPt(mem, node, d, a, b, c);
  }

  lemma StepPd(mem: Memory, node: map<Node, nat>, free: set<nat>, total: nat, d: nat, a: Index, b: Index)
    requires Sound(mem, node, free, total) && Pdpt(User(d), a) in node
    ensures var e := Entry(mem, node[Pdpt(User(d), a)], b);
            var s, s' := Visited(node, User(d), a, b, if e.present then 512 else 0),
                Visited(node, User(d), a, b + 1, 0);
            if e.present then
              && Pd(User(d), a, b) in node && e.frame == node[Pd(User(d), a, b)]
              && InUse(e.frame, free, total) && e.frame !in s && s' == s + {e.frame}
            else s' == s
  {
    VisitPd(mem, node, d, a, b);
  }

  lemma StepPdpt(mem: Memory, node: map<Node, nat>, free: set<nat>, total: nat, d: nat, a: Index)
    requires Sound(mem, node, free, total) && Root(User(d)) in node && 1 <= a < 511
    ensures var e := Entry(mem, node[Root(User(d))], a);
            var s, s' := Visited(node, User(d), a, if e.present then 512 else 0, 0),
                Visited(node, User(d), a + 1, 0, 0);
            if e.present then
              && Pdpt(User(d), a) in node && e.frame == node[Pdpt(User(d), a)]
              && InUse(e.frame, free, total) && e.frame !in s && s' == s + {e.frame}
            else s' == s
  {
    VisitPdpt(mem, node, d, a);
  }

  lemma StepNone(mem: Memory, node: map<Node, nat>, free: set<nat>, total: nat, d: nat)
    requires Sound(mem, node, free, total) && Root(User(d)) in node
    ensures Visited(node, User(d), 1, 0, 0) == {} && Gave([], {})
    ensures Visited(node, User(d), 511, 0, 0) == Owned(node, User(d))
    ensures var root := node[Root(User(d))];
            && InUse(root, free, total) && root !in Owned(node, User(d))
            && InUse(d, free, total) && d !in Owned(node, User(d)) && d != root
  {
    VisitNone(mem, node, d);
    assert SpaceOk(mem, node, free, total, d);
    assert forall n :: n in node ==> IsTable(mem, node[n]);
  }

  /** get_or_create_table, in either branch: the tree stays sound, no leaf changes. */
  lemma Descend(mem: Memory, node: map<Node, nat>, free: set<nat>, total: nat, n: Node, i: Index, user: bool, f: nat)
    requires Sound(mem, node, free, total) && n in node && !n.Pt?
    requires (Entry(mem, node[n], i).present ==> !Entry(mem, node[n], i).huge)
    requires !Entry(mem, node[n], i).present ==> f in free && 0 < f < total
    ensures IsTable(mem, node[n])
    ensures var e := Entry(mem, node[n], i);
            if e.present then
              var mem' := if user then SetEntry(mem, node[n], i, e.(user := true)) else mem;
              && Child(n, i) in node && node[Child(n, i)] == e.frame && (user ==> UserWord(mem', node[n], i))
              && Sound(mem', node, free, total) && Deepens(mem, node, free, mem', node, free)
            else
              var w := Pte(true, f, true, user, false, false, false);
              IsTable(mem[f := EmptyTable()], node[n]) &&
              var mem', node' := SetEntry(mem[f := EmptyTable()], node[n], i, w), node[Child(n, i) := f];
              && Sound(mem', node', free - {f}, total)
              && Deepens(mem, node, free, mem', node', free - {f}) && (user ==> UserWord(mem', node[n], i))
  {
    hide Grows, SameLeaves, SpaceOk;
    assert Linked(mem, node, n, i);
    if Entry(mem, node[n], i).present {
      DeepensNot(mem, node, free);
      UpgradeKeeps(mem, node, free, total, n, i);
    } else {
      var w := Pte(true, f, true, user, false, false, false);
      CreateKeeps(mem, node, free, total, n, i, f, w);
      CreateGrows(mem, node, free, total, n, i, f, w);
      AddTableLeaves(mem, node, n, i, f, w);
    }
  }

  class AddressSpaces {
    const pmm: FrameAllocator
    var mem: Memory
    const kernelRoot: nat
    /** Which frame holds the table at each place. */
    ghost var node: map<Node, nat>

    ghost predicate Valid()
      reads this, pmm, pmm.bitmap
    {
      pmm.Valid() && Sound(mem, node, pmm.free, pmm.totalPages) && node[Root(Kernel)] == kernelRoot
    }

    ghost predicate Live(o: Owner)
      reads this
    {
      Root(o) in node
    }

    /** The hardware walk in space o. */
    ghost function LeafOf(o: Owner, v: Vpn): Leaf
      requires Live(o)
      reads this
    {
      Walk(mem, node[Root(o)], v)
    }

    /** as->pml4 */
    function RootFrame(o: Owner): nat
      reads this
    {
      match o
      case Kernel => kernelRoot
      case User(d) => if d in mem && mem[d].Space? then mem[d].pml4 else 0
    }

    /** vmm_init: wraps the tables that paging_init left in CR3. */
    constructor Init(p: FrameAllocator, m: Memory, root: nat, ghost tables: map<Node, nat>)
      requires p.Valid() && Tree(m, tables) && tables[Root(Kernel)] == root
      requires forall n :: n in tables ==> n.o == Kernel && tables[n] !in p.free
      ensures Valid() && pmm == p && mem == m && node == tables
    {
      pmm := p;
      mem := m;
      kernelRoot := root;
      node := tables;
    }

    /** get_or_create_table for the table at place n. */
    method GetOrCreateTable(table: nat, index: Index, user: bool, ghost n: Node) returns (next: nat, ok: bool)
      requires Valid() && n in node && node[n] == table && !n.Pt?
      requires (Entry(mem, table, index).present ==> !Entry(mem, table, index).huge)
      modifies this`mem, this`node, pmm`freePages, pmm`free, pmm.bitmap
      ensures Valid() && Deepens(old(mem), old(node), old(pmm.free), mem, node, pmm.free)
      ensures ok ==> Child(n, index) in node && node[Child(n, index)] == next && (user ==> UserWord(mem, table, index))
      ensures !ok ==> pmm.free == {} && n in node && node[n] == table && !Entry(mem, table, index).present
    {
      hide Stores, Step, Deepens, Sound;
      var e := Entry(mem, table, index);
      if e.present {
        Descend(mem, node, pmm.free, pmm.totalPages, n, index, user, 0);
        if user {
          mem := SetEntry(mem, table, index, e.(user := true));
        }
        return e.frame, true;
      }
      var f := pmm.AllocPage();
      if f == 0 {
        DeepensNot(mem, node, pmm.free);
        return 0, false;
      }
      Descend(mem, node, old(pmm.free), pmm.totalPages, n, index, user, f);
      mem := mem[f := EmptyTable()];
      mem := SetEntry(mem, table, index, Pte(true, f, true, user, false, false, false));
      node := node[Child(n, index) := f];
      return f, true;
    }

    /** The walk of vmm_map down to the page table of page v. */
    method Reach(o: Owner, v: Vpn, user: bool) returns (pt: nat, r: Outcome)
      requires Valid() && Live(o)
      modifies this`mem, this`node, pmm`freePages, pmm`free, pmm.bitmap
      ensures Valid() && Deepens(old(mem), old(node), old(pmm.free), mem, node, pmm.free) && Live(o)
      ensures r.Done? ==> PtOf(o, v) in node && node[PtOf(o, v)] == pt && (user ==> UserPath(mem, node, o, v))
      ensures r.ThroughHugePage? ==> LeafAt(mem, node, o, v).Huge2M?
      ensures r.OutOfMemory? ==> pmm.free == {} && LeafAt(mem, node, o, v).NotMapped?
      ensures !r.AlreadyMapped?
    {
      hide Stores, Step, Deepens, Sound, Granted, LeafAt;
      pt := 0;
      var root := RootFrame(o);
      ghost var n4, n3, n2 := Root(o), Pdpt(Via(o, v.i4), v.i4), Pd(Via(o, v.i4), v.i4, v.i3);
      RootIs(o);
      TopWords(n4, v.i4);
      var pdpt, ok := GetOrCreateTable(root, v.i4, user, n4);
      Keeps(old(mem), old(node), old(pmm.free), o, n4, v.i4);
      Cases(o, v);
      if !ok { return pt, OutOfMemory; }
      TopWords(n3, v.i3);
      label first:
      var pd;
      pd, ok := GetOrCreateTable(pdpt, v.i3, user, n3);
      DeepensTwice(old(mem), old(node), old(pmm.free), old@first(mem), old@first(node), old@first(pmm.free), mem, node,
                   pmm.free);
      Keeps(old@first(mem), old@first(node), old@first(pmm.free), o, n4, v.i4);
      Keeps(old@first(mem), old@first(node), old@first(pmm.free), o, n3, v.i3);
      Cases(o, v);
      if !ok { return pt, OutOfMemory; }
      if Entry(mem, pd, v.i2).huge { return pt, ThroughHugePage; }
      label second:
      pt, ok := GetOrCreateTable(pd, v.i2, user, n2);
      DeepensTwice(old(mem), old(node), old(pmm.free), old@second(mem), old@second(node), old@second(pmm.free), mem,
                   node, pmm.free);
      Keeps(old@second(mem), old@second(node), old@second(pmm.free), o, n4, v.i4);
      Keeps(old@second(mem), old@second(node), old@second(pmm.free), o, n3, v.i3);
      Keeps(old@second(mem), old@second(node), old@second(pmm.free), o, n2, v.i2);
      Cases(o, v);
      if !ok { return pt, OutOfMemory; }
      return pt, Done;
    }

    lemma Keeps(was: Memory, tables: map<Node, nat>, free: set<nat>, o: Owner, n: Node, i: Index)
      requires Deepens(was, tables, free, mem, node, pmm.free) && n in tables && Root(o) in tables
      ensures Live(o) && n in node && node[n] == tables[n]
      ensures UserWord(was, tables[n], i) ==> UserWord(mem, node[n], i)
    {
    }

    lemma Cases(o: Owner, v: Vpn)
      requires Valid() && Live(o)
      ensures var s := Via(o, v.i4);
              var n3, n2, n1, l := Pdpt(s, v.i4), Pd(s, v.i4, v.i3), PtOf(o, v), LeafAt(mem, node, o, v);
              && !l.Huge1G?
              && (!Entry(mem, node[Root(o)], v.i4).present ==> l.NotMapped?)
              && (n3 in node && !Entry(mem, node[n3], v.i3).present ==> l.NotMapped?)
              && (n2 in node && !Entry(mem, node[n2], v.i2).present ==> l.NotMapped?)
              && (n2 in node ==> (Entry(mem, node[n2], v.i2).huge <==> l.Huge2M?))
              && (n1 in node ==> !l.Huge2M? && (Entry(mem, node[n1], v.i1).present <==> l.Mapped?))
    {
      LeafCases(mem, node, o, v);
    }

    /** vmm_map. */
    method Map(o: Owner, virt: nat, phys: nat, flags: Flags) returns (r: Outcome)
      requires Valid() && Live(o) && virt % 0x1000 == 0 && phys % 0x1000 == 0
      modifies this`mem, this`node, pmm`freePages, pmm`free, pmm.bitmap
      ensures Valid() && Grows(old(mem), old(node), old(pmm.free), mem, node, pmm.free) && Live(o)
      ensures r.Done? ==> LeafSet(old(mem), old(node), mem, node, o, VpnOf(virt), Mapped(LeafPte(phys / 0x1000, flags)))
      ensures r.Done? ==> V.Step(V.Tables(old(mem), old(node)), V.Map(o, VpnOf(virt), LeafPte(phys / 0x1000, flags)),
                                 V.Tables(mem, node))
      ensures r.Done? ==> Granted(mem, node[Root(o)], VpnOf(virt)) == Rights(flags.write, flags.user, flags.nx)
      ensures r.Done? && flags.user ==> UserPath(mem, node, o, VpnOf(virt))
      ensures !r.Done? ==> SameLeaves(old(mem), old(node), mem, node)
      ensures r.ThroughHugePage? <==> LeafAt(old(mem), old(node), o, VpnOf(virt)).Huge2M?
      ensures r.AlreadyMapped? <==> LeafAt(old(mem), old(node), o, VpnOf(virt)).Mapped?
      ensures r.OutOfMemory? ==> pmm.free == {}
    {
      hide Stores, Step, V.Step, Grows, SameLeaves, Sound, LeafSet, Granted, LeafAt;
      var v, e := VpnOf(virt), LeafPte(phys / 0x1000, flags);
      var pt;
      pt, r := Reach(o, v, flags.user);
      Cases(o, v);
      SameAt(old(mem), old(node), mem, node, o, v);
      if !r.Done? { return; }
      if Entry(mem, pt, v.i1).present { return AlreadyMapped; }
      label reached:
      LeafKeeps(mem, node, pmm.free, pmm.totalPages, o, v, e);
      mem := SetEntry(mem, pt, v.i1, e);
      GrowsTwice(old(mem), old(node), old(pmm.free), old@reached(mem), node, pmm.free, mem, node, pmm.free);
      LeafSetAfterSame(old(mem), old(node), old@reached(mem), node, mem, node, o, v, Mapped(e));
      if flags.user { UserPathKept(old@reached(mem), node, pmm.free, mem, node, pmm.free, o, v); }
      Rightful(o, v, flags, phys / 0x1000, old@reached(mem));
      MapIsStep(old(mem), old(node), old(pmm.free), mem, node, pmm.free, pmm.totalPages, o, v, e);
    }

    lemma Rightful(o: Owner, v: Vpn, flags: Flags, f: nat, was: Memory)
      requires Valid() && Live(o) && LeafSet(was, node, mem, node, o, v, Mapped(LeafPte(f, flags)))
      requires flags.user ==> UserPath(mem, node, o, v)
      ensures Granted(mem, node[Root(o)], v) == Rights(flags.write, flags.user, flags.nx)
    {
      RightsOfLeaf(mem, node, o, v, LeafPte(f, flags));
    }

    /** vmm_unmap. Under a huge page it takes the first frame of that page for a page table:
        it faults if that page is not executable, and otherwise clears a word of whatever the
        frame holds, which leaves the tables sound exactly if nothing hangs from that word. */
    method Unmap(o: Owner, virt: nat) returns (faulted: bool)
      requires Valid() && Live(o) && virt % 0x1000 == 0
      modifies this`mem
      ensures mem == UnmapStore(old(mem), node[Root(o)], VpnOf(virt))
      ensures var l := old(LeafAt(mem, node, o, VpnOf(virt)));
              && (faulted <==> l.Huge2M? && l.e.nx)
              && (!MeetsHuge(l) ==>
                    && Valid() && LeafSet(old(mem), node, mem, node, o, VpnOf(virt), NotMapped)
                    && forall f :: f in old(mem) && Fresh(node, f) ==> f in mem && mem[f] == old(mem)[f])
              && (MeetsHuge(l) && !faulted ==>
                    && mem == ClearWord(old(mem), l.e.frame, VpnOf(virt).i1)
                    && (Valid() <==> !WordNeeded(node, l.e.frame, VpnOf(virt).i1)))
      ensures !faulted ==> V.Step(V.Tables(old(mem), node), V.Unmap(o, VpnOf(virt)), V.Tables(mem, node))
    {
      var v := VpnOf(virt);
      var root := RootFrame(o);
      RootIs(o);
      UnmapKeeps(mem, node, pmm.free, pmm.totalPages, o, v);
      hide Stores, Sound, LeafSet, LeafAt, Entry, ClearWord, WordNeeded, Fresh;
      var e4 := Entry(mem, root, v.i4);
      if !e4.present { return false; }
      if e4.nx { return true; }
      var e3 := Entry(mem, e4.frame, v.i3);
      if !e3.present { return false; }
      if e3.nx { return true; }
      var e2 := Entry(mem, e3.frame, v.i2);
      if !e2.present { return false; }
      if e2.nx { return true; }
      mem := ClearWord(mem, e2.frame, v.i1);
      return false;
    }

    /** vmm_create_address_space: record in frame d, root table in frame f; d is 0 when
        there is no frame for the record. */
    method Create() returns (r: Outcome, d: nat, f: nat)
      requires Valid()
      modifies this`mem, this`node, pmm`freePages, pmm`free, pmm.bitmap
      ensures r.Done? || (r.OutOfMemory? && old(pmm.free) == {d})
      ensures d == 0 ==> Valid() && r.Done? && old(pmm.free) == {} == pmm.free
      ensures d == 0 ==> mem == old(mem) && node == old(node)
      ensures r.Done? && d != 0 ==> Valid() && Created(old(mem), old(node), old(pmm.free), mem, node, pmm.free, d, f)
    {
      hide Stores, Step, Sound, Created;
      f := 0;
      d := pmm.AllocPage();
      if d == 0 { return Done, 0, 0; }
      f := pmm.AllocPage();
      if f == 0 {
        assert old(pmm.free) == {d};
        return OutOfMemory, d, 0;
      }
      InstallRoot(d, f, old(pmm.free));
      return Done, d, f;
    }

    method InstallRoot(d: nat, f: nat, ghost free: set<nat>)
      requires Sound(mem, node, free, pmm.totalPages) && node[Root(Kernel)] == kernelRoot
      requires pmm.free == free - {d} - {f}
      requires d in free && f in free && d != f && 0 < d < pmm.totalPages && 0 < f < pmm.totalPages
      modifies this`mem, this`node
      ensures Sound(mem, node, pmm.free, pmm.totalPages) && node[Root(Kernel)] == kernelRoot
      ensures Created(old(mem), old(node), free, mem, node, pmm.free, d, f)
    {
      NewSpaceKeeps(mem, node, free, pmm.totalPages, d, f);
      RootIsMade(mem, node, mem[d := Space(f)][f := NewRoot(mem, kernelRoot)], f);
      hide Stores, V.Step, Sound, SameLeaves, NewRoot, RootMade;
      var table := NewRoot(mem, kernelRoot);
      mem := mem[d := Space(f)];
      mem := mem[f := table];
      node := node[Root(User(d)) := f];
      CreateIsStep(old(mem), old(node), free, mem, node, pmm.free, pmm.totalPages, d, f);
    }

    /** One pmm_free_page of vmm_destroy_address_space; s are the frames given back before. */
    method GiveBack(f: nat, ghost base: set<nat>, ghost s: set<nat>, ghost given: seq<nat>)
      returns (ghost given': seq<nat>)
      requires pmm.Valid() && pmm.free == base + s && f !in s && f !in base && 0 < f < pmm.totalPages && Gave(given, s)
      modifies pmm`freePages, pmm`free, pmm.bitmap
      ensures pmm.Valid() && pmm.free == base + (s + {f}) && pmm.freePages == old(pmm.freePages) + 1
      ensures Gave(given', s + {f}) && |given'| == |given| + 1
    {
      pmm.FreePage(f);
      given' := given + [f];
    }

    /** The innermost loop of vmm_destroy_address_space. */
    method FreePts(pd: nat, ghost d: nat, ghost a: Index, ghost b: Index, ghost base: set<nat>, ghost given0: seq<nat>)
      returns (ghost given: seq<nat>)
      requires pmm.Valid() && Sound(mem, node, base, pmm.totalPages) && Pd(User(d), a, b) in node
      requires node[Pd(User(d), a, b)] == pd
      requires pmm.free == base + Visited(node, User(d), a, b, 0) && Gave(given0, Visited(node, User(d), a, b, 0))
      modifies pmm`freePages, pmm`free, pmm.bitmap
      ensures pmm.Valid() && pmm.free == base + Visited(node, User(d), a, b, 512)
      ensures Gave(given, Visited(node, User(d), a, b, 512)) && pmm.freePages - |given| == old(pmm.freePages) - |given0|
    {
      hide Stores, Step, Sound, Gave, Visited;
      given := given0;
      var c := 0;
      while c < 512
        invariant c <= 512 && pmm.Valid() && pmm.free == base + Visited(node, User(d), a, b, c)
        invariant Gave(given, Visited(node, User(d), a, b, c))
        invariant pmm.freePages - |given| == old(pmm.freePages) - |given0|
      {
        StepPt(mem, node, base, pmm.totalPages, d, a, b, c);
        var e := Entry(mem, pd, c);
        if e.present {
          given := GiveBack(e.frame, base, Visited(node, User(d), a, b, c), given);
        }
        c := c + 1;
      }
    }

    /** The middle loop. */
    method FreePds(pdpt: nat, ghost d: nat, ghost a: Index, ghost base: set<nat>, ghost given0: seq<nat>)
      returns (ghost given: seq<nat>)
      requires pmm.Valid() && Sound(mem, node, base, pmm.totalPages) && Pdpt(User(d), a) in node
      requires node[Pdpt(User(d), a)] == pdpt
      requires pmm.free == base + Visited(node, User(d), a, 0, 0) && Gave(given0, Visited(node, User(d), a, 0, 0))
      modifies pmm`freePages, pmm`free, pmm.bitmap
      ensures pmm.Valid() && pmm.free == base + Visited(node, User(d), a, 512, 0)
      ensures Gave(given, Visited(node, User(d), a, 512, 0)) && pmm.freePages - |given| == old(pmm.freePages) - |given0|
    {
      hide Stores, Step, Sound, Gave, Visited;
      given := given0;
      var b := 0;
      while b < 512
        invariant b <= 512 && pmm.Valid() && pmm.free == base + Visited(node, User(d), a, b, 0)
        invariant Gave(given, Visited(node, User(d), a, b, 0))
        invariant pmm.freePages - |given| == old(pmm.freePages) - |given0|
      {
        StepPd(mem, node, base, pmm.totalPages, d, a, b);
        var e := Entry(mem, pdpt, b);
        if e.present {
          given := FreePts(e.frame, d, a, b, base, given);
          given := GiveBack(e.frame, base, Visited(node, User(d), a, b, 512), given);
        }
        b := b + 1;
      }
    }

    /** The outer loop: slots 1 to 510. */
    method FreePdpts(root: nat, ghost d: nat, ghost base: set<nat>) returns (ghost given: seq<nat>)
      requires pmm.Valid() && Sound(mem, node, base, pmm.totalPages) && Root(User(d)) in node
      requires node[Root(User(d))] == root
      requires pmm.free == base
      modifies pmm`freePages, pmm`free, pmm.bitmap
      ensures pmm.Valid() && pmm.free == base + Owned(node, User(d))
      ensures Gave(given, Owned(node, User(d))) && pmm.freePages == old(pmm.freePages) + |given|
    {
      hide Stores, Sound, Gave, Visited, Owned;
      StepNone(mem, node, base, pmm.totalPages, d);
      given := [];
      var a := 1;
      while a < 511
        invariant 1 <= a <= 511 && pmm.Valid() && pmm.free == base + Visited(node, User(d), a, 0, 0)
        invariant Gave(given, Visited(node, User(d), a, 0, 0)) && pmm.freePages == old(pmm.freePages) + |given|
      {
        StepPdpt(mem, node, base, pmm.totalPages, d, a);
        var e := Entry(mem, root, a);
        if e.present {
          given := FreePds(e.frame, d, a, base, given);
          given := GiveBack(e.frame, base, Visited(node, User(d), a, 512, 0), given);
        }
        a := a + 1;
      }
    }

    /** vmm_destroy_address_space. The frames given back are the record, the root and
        every table the space owns, each passed to pmm_free_page once. */
    method Destroy(d: nat) returns (ghost given: seq<nat>)
      requires Valid() && Live(User(d))
      modifies this`node, pmm`freePages, pmm`free, pmm.bitmap
      ensures Valid() && node == Without(old(node), User(d))
      ensures V.Step(V.Tables(mem, old(node)), V.Destroy(d), V.Tables(mem, node))
      ensures pmm.free == old(pmm.free) + SpaceFrames(old(node), d) && Gave(given, SpaceFrames(old(node), d))
      ensures pmm.freePages == old(pmm.freePages) + |given|
    {
      hide Stores, Sound, Gave, Owned, Without, V.Step;
      RootIs(User(d));
      var root := RootFrame(User(d));
      ghost var base := pmm.free;
      StepNone(mem, node, base, pmm.totalPages, d);
      given := FreePdpts(root, d, base);
      given := GiveBack(root, base, Owned(node, User(d)), given);
      given := GiveBack(d, base, Owned(node, User(d)) + {root}, given);
      DropSpaceKeeps(mem, node, base, pmm.totalPages, d);
      node := Without(node, User(d));
    }

    lemma RootIs(o: Owner)
      requires Valid() && Live(o)
      ensures RootFrame(o) == node[Root(o)]
    {
      if o.User? { assert SpaceOk(mem, node, pmm.free, pmm.totalPages, o.id); }
    }

    lemma TopWords(n: Node, i: Index)
      requires Valid() && n in node && !n.Pt? && !n.Pd?
      ensures !Entry(mem, node[n], i).huge
    {
      assert Linked(mem, node, n, i);
    }
  }
}
