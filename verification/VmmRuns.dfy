/** Whole runs of vmm_create_address_space, vmm_map, vmm_unmap and
    vmm_destroy_address_space, and what a space may rely on through them. */
module VmmRuns {
  import opened PageTables
  import opened Unmapping

  datatype Tables = Tables(mem: Memory, node: map<Node, nat>)

  datatype Op =
    | Create(id: nat)
    | Map(o: Owner, v: Vpn, e: Pte)
    | Unmap(o: Owner, v: Vpn)
    | Destroy(id: nat)

  /** What the four operations promise about the tables; the methods of
      Vmm.AddressSpaces have these clauses as their postconditions. vmm_unmap makes its
      store whatever the word it follows is; only a store that faults has no state after. */
  ghost predicate Step(s: Tables, op: Op, s': Tables) {
    && Tree(s.mem, s.node) && (op.Unmap? || Tree(s'.mem, s'.node))
    && match op
       case Create(d) =>
         && Root(User(d)) !in s.node && SameLeaves(s.mem, s.node, s'.mem, s'.node)
         && forall o :: Root(o) in s'.node <==> Root(o) in s.node || o == User(d)
       case Map(o, v, e) =>
         && Root(o) in s.node && LeafSet(s.mem, s.node, s'.mem, s'.node, o, v, Mapped(e))
         && forall t :: Root(t) in s'.node <==> Root(t) in s.node
       case Unmap(o, v) =>
         && Root(o) in s.node && !UnmapTarget(s.mem, s.node[Root(o)], v).Fault?
         && s' == Tables(UnmapStore(s.mem, s.node[Root(o)], v), s.node)
       case Destroy(d) =>
         s'.mem == s.mem && s'.node == Without(s.node, User(d))
  }

  ghost predicate Run(ss: seq<Tables>, ops: seq<Op>) {
    |ss| == |ops| + 1 && Tree(ss[0].mem, ss[0].node) && forall k :: 0 <= k < |ops| ==> Step(ss[k], ops[k], ss[k + 1])
  }

  /** The operation names page w of space t, or creates or destroys t. */
  predicate Touches(op: Op, t: Owner, w: Vpn) {
    match op
    case Create(d) => t == User(d)
    case Destroy(d) => t == User(d)
    case Map(o, v, _) => o == t && v == w
    case Unmap(o, v) => o == t && v == w
  }

  /** vmm_unmap of a page under a huge page. */
  ghost predicate UnmapsHuge(s: Tables, op: Op) {
    op.Unmap? && MeetsHuge(LeafAt(s.mem, s.node, op.o, op.v))
  }

  /** Step k of the run names nothing of page w of space t, and no page under a huge page. */
  ghost predicate StaysClear(ss: seq<Tables>, ops: seq<Op>, t: Owner, w: Vpn, k: nat)
    requires |ss| == |ops| + 1 && k < |ops|
  {
    !Touches(ops[k], t, w) && !UnmapsHuge(ss[k], ops[k])
  }

  lemma StepIsolates(s: Tables, op: Op, s': Tables, t: Owner, w: Vpn)
    requires Step(s, op, s') && !UnmapsHuge(s, op) && !Touches(op, t, w)
    ensures Tree(s'.mem, s'.node) && (Root(t) in s'.node <==> Root(t) in s.node)
    ensures !SharedSlot(w.i4) ==> LeafAt(s'.mem, s'.node, t, w) == LeafAt(s.mem, s.node, t, w)
  {
    if op.Destroy? { RemoveSpace(s.mem, s.node, op.id); }
    if op.Unmap? { UnmapPlain(s.mem, s.node, op.o, op.v); }
  }

  /** Isolation: through any run that never names it and unmaps no page under a huge page, a
      page in slots 1 to 510 of a space keeps its translation, whatever happens in all the
      other spaces; the tables stay a tree, and the space is there at the end if and only if
      it was there at the start. */
  lemma {:induction false} Isolation(ss: seq<Tables>, ops: seq<Op>, t: Owner, w: Vpn)
    requires Run(ss, ops) && forall k :: 0 <= k < |ops| ==> StaysClear(ss, ops, t, w, k)
    ensures Tree(ss[|ops|].mem, ss[|ops|].node) && (Root(t) in ss[|ops|].node <==> Root(t) in ss[0].node)
    ensures !SharedSlot(w.i4) ==> LeafAt(ss[|ops|].mem, ss[|ops|].node, t, w) == LeafAt(ss[0].mem, ss[0].node, t, w)
    decreases |ops|
  {
    hide Tree, LeafAt, Step;
    if |ops| > 0 {
      var n := |ops| - 1;
      var rs, qs := ss[..n + 1], ops[..n];
      forall k | 0 <= k < n ensures StaysClear(rs, qs, t, w, k) { assert StaysClear(ss, ops, t, w, k); }
      Isolation(rs, qs, t, w);
      assert Step(ss[n], ops[n], ss[n + 1]) && StaysClear(ss, ops, t, w, n);
      StepIsolates(ss[n], ops[n], ss[n + 1], t, w);
    }
  }

  /** The walk of page w in space t finds present the word that the call clears. */
  ghost predicate Clears(s: Tables, op: Op, t: Owner, w: Vpn)
    requires Root(t) in s.node
  {
    && op.Unmap? && Root(op.o) in s.node
    && var c := UnmapTarget(s.mem, s.node[Root(op.o)], op.v);
       c.Word? && ReadsWord(s.mem, s.node[Root(t)], w, c.f, c.i)
  }

  /** What any vmm_unmap, under a huge page or not, does to any page of any space: the page
      keeps its translation exactly if it had none or its walk does not find the word. */
  lemma UnmapSparesIff(s: Tables, op: Op, s': Tables, t: Owner, w: Vpn)
    requires Step(s, op, s') && op.Unmap? && Root(t) in s.node
    ensures var l, l' := Walk(s.mem, s.node[Root(t)], w), Walk(s'.mem, s'.node[Root(t)], w);
            && l' == (if Clears(s, op, t, w) then NotMapped else l)
            && (l' == l <==> l.NotMapped? || !Clears(s, op, t, w))
  {
    var c := UnmapTarget(s.mem, s.node[Root(op.o)], op.v);
    if c.Word? { WalkAfterClear(s.mem, s.node[Root(t)], w, c.f, c.i); }
  }

  /** The call names nothing of page w of space t, or it is a vmm_unmap that does not clear
      a word the walk finds. */
  ghost predicate Spares(s: Tables, op: Op, t: Owner, w: Vpn) {
    Root(t) in s.node && if op.Unmap? then !Clears(s, op, t, w) else !Touches(op, t, w)
  }

  lemma StepSpares(s: Tables, op: Op, s': Tables, t: Owner, w: Vpn)
    requires Step(s, op, s') && !SharedSlot(w.i4) && Spares(s, op, t, w)
    ensures Root(t) in s'.node && Walk(s'.mem, s'.node[Root(t)], w) == Walk(s.mem, s.node[Root(t)], w)
  {
    if op.Unmap? {
      UnmapSparesIff(s, op, s', t, w);
    } else {
      StepIsolates(s, op, s', t, w);
      WalkIsLeafAt(s.mem, s.node, t, w);
      WalkIsLeafAt(s'.mem, s'.node, t, w);
    }
  }

  /** Isolation of the walk the hardware makes and of vmm_virt_to_phys, also through unmaps
      under huge pages as long as none clears a word that the walk finds. */
  lemma {:induction false} IsolationOfWalks(ss: seq<Tables>, ops: seq<Op>, t: Owner, virt: nat)
    requires Run(ss, ops) && !SharedSlot(VpnOf(virt).i4) && Root(t) in ss[0].node
    requires forall k :: 0 <= k < |ops| ==> Spares(ss[k], ops[k], t, VpnOf(virt))
    ensures var s, s' := ss[0], ss[|ops|];
            && Root(t) in s'.node
            && Walk(s'.mem, s'.node[Root(t)], VpnOf(virt)) == Walk(s.mem, s.node[Root(t)], VpnOf(virt))
            && (!MeetsHuge(Walk(s.mem, s.node[Root(t)], VpnOf(virt))) ==>
                  VirtToPhys(s'.mem, s'.node[Root(t)], virt) == VirtToPhys(s.mem, s.node[Root(t)], virt))
    decreases |ops|
  {
    hide Step, Tree, Walk, VpnOf, VirtToPhys;
    if |ops| > 0 {
      var n := |ops| - 1;
      IsolationOfWalks(ss[..n + 1], ops[..n], t, virt);
      assert Step(ss[n], ops[n], ss[n + 1]) && Spares(ss[n], ops[n], t, VpnOf(virt));
      StepSpares(ss[n], ops[n], ss[n + 1], t, VpnOf(virt));
      var s, s' := ss[n], ss[n + 1];
      if !MeetsHuge(Walk(s.mem, s.node[Root(t)], VpnOf(virt))) {
        VirtToPhysIsWalk(s.mem, s.node[Root(t)], virt);
        VirtToPhysIsWalk(s'.mem, s'.node[Root(t)], virt);
      }
    }
  }

  /** A page mapped through slot 0 or 511 of any one space appears in all of them, and one
      unmapped there disappears from all of them, unless it is under a huge page: that
      page goes only where the word cleared is one that leads to it. */
  lemma SharedSeenByAll(s: Tables, op: Op, s': Tables, t: Owner)
    requires Step(s, op, s') && (op.Map? || op.Unmap?) && SharedSlot(op.v.i4) && Root(t) in s.node
    ensures var l, l' := Walk(s.mem, s.node[Root(t)], op.v), Walk(s'.mem, s'.node[Root(t)], op.v);
            && (op.Map? ==> l' == Mapped(op.e))
            && (op.Unmap? && !MeetsHuge(l) ==> l' == NotMapped)
            && (op.Unmap? && MeetsHuge(l) ==> l' == if Clears(s, op, t, op.v) then NotMapped else l)
  {
    WalkIsLeafAt(s.mem, s.node, t, op.v);
    if op.Map? {
      WalkIsLeafAt(s'.mem, s'.node, t, op.v);
    } else {
      UnmapSparesIff(s, op, s', t, op.v);
      if !UnmapsHuge(s, op) {
        UnmapPlain(s.mem, s.node, op.o, op.v);
        WalkIsLeafAt(s'.mem, s'.node, t, op.v);
      }
    }
  }

  /** The whole effect of vmm_map on vmm_virt_to_phys, in every space and at every
      address: the new page answers with its frame at every byte, and every other
      48-bit page that is reached without a huge entry answers as before, although up
      to three tables may have been created. */
  lemma MapTranslates(s: Tables, o: Owner, virt: nat, e: Pte, s': Tables, t: Owner, a: nat)
    requires Step(s, Map(o, VpnOf(virt), e), s') && e.present && Root(t) in s.node
    ensures PageNumber(a) == PageNumber(virt) && Via(t, VpnOf(virt).i4) == Via(o, VpnOf(virt).i4) ==>
              VirtToPhys(s'.mem, s'.node[Root(t)], a) == e.frame * 0x1000 + a % 0x1000
    ensures !(PageNumber(a) == PageNumber(virt) && Via(t, VpnOf(virt).i4) == Via(o, VpnOf(virt).i4))
            && !MeetsHuge(Walk(s.mem, s.node[Root(t)], VpnOf(a))) ==>
              VirtToPhys(s'.mem, s'.node[Root(t)], a) == VirtToPhys(s.mem, s.node[Root(t)], a)
  {
    SameVpn(a, virt);
    WalkIsLeafAt(s.mem, s.node, t, VpnOf(a));
    WalkIsLeafAt(s'.mem, s'.node, t, VpnOf(a));
    if !MeetsHuge(Walk(s'.mem, s'.node[Root(t)], VpnOf(a))) { VirtToPhysIsWalk(s'.mem, s'.node[Root(t)], a); }
    if !MeetsHuge(Walk(s.mem, s.node[Root(t)], VpnOf(a))) { VirtToPhysIsWalk(s.mem, s.node[Root(t)], a); }
  }
}
