/** The store of vmm_unmap in kernel/vmm.c, which looks at no huge bit: which word it clears,
    and what every walk finds afterwards. */
module Unmapping {
  import opened Words
  import opened PageTables

  function ZeroWord(data: seq<Byte>, i: Index): (r: seq<Byte>)
    requires |data| == 4096
    ensures |r| == 4096
  {
    seq(4096, k requires 0 <= k < 4096 => if 8 * i <= k < 8 * i + 8 then 0 else data[k])
  }

  /** Word i of frame f becomes 0, whatever the frame holds; of an AddressSpace record the
      model keeps the first word only. */
  function ClearWord(mem: Memory, f: nat, i: Index): Memory {
    if IsTable(mem, f) then SetEntry(mem, f, i, ABSENT)
    else if f in mem && mem[f].Bytes? && |mem[f].data| == 4096 then mem[f := Bytes(ZeroWord(mem[f].data, i))]
    else if f in mem && mem[f].Space? && i == 0 then mem[f := Space(0)]
    else mem
  }

  lemma EntryAfterClear(mem: Memory, f: nat, i: Index, g: nat, j: Index)
    ensures Entry(ClearWord(mem, f, i), g, j) == if g == f && j == i then ABSENT else Entry(mem, g, j)
    ensures IsTable(ClearWord(mem, f, i), g) <==> IsTable(mem, g)
  {
    if f in mem && mem[f].Bytes? && |mem[f].data| == 4096 && g == f { WordAfterClear(mem[f].data, i, j); }
  }

  lemma WordAfterClear(data: seq<Byte>, i: Index, j: Index)
    requires |data| == 4096
    ensures WordIn(ZeroWord(data, i), j) == if j == i then ABSENT else WordIn(data, j)
  {
  }

  /** What vmm_unmap stores to: nothing, a word, or an address that is not canonical because
      its mask keeps the no-execute bit of the word it follows. */
  datatype Target = Nowhere | Fault | Word(f: nat, i: Index)

  function UnmapTarget(mem: Memory, root: nat, v: Vpn): Target {
    var e4 := Entry(mem, root, v.i4);
    if !e4.present then Nowhere else if e4.nx then Fault else
    var e3 := Entry(mem, e4.frame, v.i3);
    if !e3.present then Nowhere else if e3.nx then Fault else
    var e2 := Entry(mem, e3.frame, v.i2);
    if !e2.present then Nowhere else if e2.nx then Fault else Word(e2.frame, v.i1)
  }

  /** Memory after vmm_unmap. */
  function UnmapStore(mem: Memory, root: nat, v: Vpn): Memory {
    match UnmapTarget(mem, root, v)
    case Word(f, i) => ClearWord(mem, f, i)
    case _ => mem
  }

  /** The walk of w finds a present word at index i of frame f. */
  predicate ReadsWord(mem: Memory, root: nat, w: Vpn, f: nat, i: Index) {
    var e4 := Entry(mem, root, w.i4);
    var e3 := Entry(mem, e4.frame, w.i3);
    var e2 := Entry(mem, e3.frame, w.i2);
    var e1 := Entry(mem, e2.frame, w.i1);
    && e4.present
    && (|| (root == f && w.i4 == i)
        || (&& e3.present
            && (|| (e4.frame == f && w.i3 == i)
                || (&& e2.present && !e3.huge
                    && (|| (e3.frame == f && w.i2 == i)
                        || (e1.present && !e2.huge && e2.frame == f && w.i1 == i))))))
  }

  /** After a word was cleared, exactly the walks that found it present end there. */
  lemma WalkAfterClear(mem: Memory, root: nat, w: Vpn, f: nat, i: Index)
    ensures Walk(ClearWord(mem, f, i), root, w)
            == if ReadsWord(mem, root, w, f, i) then NotMapped else Walk(mem, root, w)
  {
    hide ClearWord, Entry;
    var e4 := Entry(mem, root, w.i4);
    var e3 := Entry(mem, e4.frame, w.i3);
    var e2 := Entry(mem, e3.frame, w.i2);
    EntryAfterClear(mem, f, i, root, w.i4);
    EntryAfterClear(mem, f, i, e4.frame, w.i3);
    EntryAfterClear(mem, f, i, e3.frame, w.i2);
    EntryAfterClear(mem, f, i, e2.frame, w.i1);
  }

  /** The page of v is unmapped, in space o and where the same tables lead to it, and every
      other walk of every space ends as before. */
  ghost predicate OnlyUnmaps(mem: Memory, node: map<Node, nat>, mem': Memory, o: Owner, v: Vpn) {
    forall t, w :: Root(t) in node ==>
      Walk(mem', node[Root(t)], w)
      == if w == v && Via(t, v.i4) == Via(o, v.i4) then NotMapped else Walk(mem, node[Root(t)], w)
  }

  /** Where the tables end: the target without a huge page, and under one. */
  lemma TargetIs(mem: Memory, node: map<Node, nat>, o: Owner, v: Vpn)
    requires Tree(mem, node) && Root(o) in node
    ensures var t, l := UnmapTarget(mem, node[Root(o)], v), LeafAt(mem, node, o, v);
            && (PtOf(o, v) in node ==> !MeetsHuge(l) && t == Word(node[PtOf(o, v)], v.i1))
            && (l.Huge2M? ==> t == if l.e.nx then Fault else Word(l.e.frame, v.i1))
            && (PtOf(o, v) !in node && !MeetsHuge(l) ==> t.Nowhere?)
            && !l.Huge1G?
  {
    var s := Via(o, v.i4);
    var n3, n2, n1 := Pdpt(s, v.i4), Pd(s, v.i4, v.i3), Pt(s, v.i4, v.i3, v.i2);
    assert Child(Root(o), v.i4) == n3 && Parent(n2) == n3 && Parent(n1) == n2;
    assert Linked(mem, node, Root(o), v.i4);
    if n3 in node {
      assert Child(n3, v.i3) == n2 && Linked(mem, node, n3, v.i3);
      if n2 in node {
        assert Child(n2, v.i2) == n1 && Linked(mem, node, n2, v.i2);
      }
    }
  }

  /** Without a huge page on the way, vmm_unmap keeps the tree and unmaps the page alone. */
  lemma UnmapPlain(mem: Memory, node: map<Node, nat>, o: Owner, v: Vpn)
    requires Tree(mem, node) && Root(o) in node && !MeetsHuge(LeafAt(mem, node, o, v))
    ensures var mem' := UnmapStore(mem, node[Root(o)], v);
            && Tree(mem', node) && LeafSet(mem, node, mem', node, o, v, NotMapped)
            && forall f :: f in mem && Fresh(node, f) ==> f in mem' && mem'[f] == mem[f]
  {
    TargetIs(mem, node, o, v);
    if PtOf(o, v) in node {
      SetLeaf(mem, node, o, v, ABSENT);
    } else {
      NothingSet(mem, node, o, v);
    }
  }

  /** vmm_unmap unmaps the page and alters no other translation exactly if the page is not
      under a huge page. */
  lemma UnmapIff(mem: Memory, node: map<Node, nat>, o: Owner, v: Vpn)
    requires Tree(mem, node) && Root(o) in node
    ensures OnlyUnmaps(mem, node, UnmapStore(mem, node[Root(o)], v), o, v) <==> !MeetsHuge(LeafAt(mem, node, o, v))
  {
    var mem' := UnmapStore(mem, node[Root(o)], v);
    if MeetsHuge(LeafAt(mem, node, o, v)) {
      UnderHuge(mem, node, o, v);
    } else {
      UnmapPlain(mem, node, o, v);
      hide Tree, Walk, LeafAt, UnmapStore;
      forall t, w | Root(t) in node
        ensures Walk(mem', node[Root(t)], w)
             == if w == v && Via(t, v.i4) == Via(o, v.i4) then NotMapped else Walk(mem, node[Root(t)], w)
      {
        WalkIsLeafAt(mem, node, t, w);
        WalkIsLeafAt(mem', node, t, w);
      }
    }
  }

  /** Under a huge page: a fault, or the huge page stays, or all 512 pages under it go. */
  lemma UnderHuge(mem: Memory, node: map<Node, nat>, o: Owner, v: Vpn)
    requires Tree(mem, node) && Root(o) in node && LeafAt(mem, node, o, v).Huge2M?
    ensures var mem', root := UnmapStore(mem, node[Root(o)], v), node[Root(o)];
            && (forall i: Index :: Walk(mem, root, v.(i1 := i)) == LeafAt(mem, node, o, v))
            && (|| (forall i: Index :: Walk(mem', root, v.(i1 := i)) == LeafAt(mem, node, o, v))
                || (forall i: Index :: Walk(mem', root, v.(i1 := i)) == NotMapped))
            && !OnlyUnmaps(mem, node, mem', o, v)
  {
    var mem', root := UnmapStore(mem, node[Root(o)], v), node[Root(o)];
    var l, j := LeafAt(mem, node, o, v), if v.i1 == 0 then 1 else 0;
    TargetIs(mem, node, o, v);
    forall i: Index ensures Walk(mem, root, v.(i1 := i)) == l { WalkIsLeafAt(mem, node, o, v.(i1 := i)); }
    if !l.e.nx {
      var f, k := l.e.frame, v.i1;
      forall i: Index
        ensures ReadsWord(mem, root, v.(i1 := i), f, k) <==> ReadsWord(mem, root, v, f, k)
        ensures Walk(mem', root, v.(i1 := i)) == if ReadsWord(mem, root, v, f, k) then NotMapped else l
      {
        SameRead(mem, root, v, i, f, k);
        WalkAfterClear(mem, root, v.(i1 := i), f, k);
      }
    }
    assert v.(i1 := v.i1) == v && v.(i1 := j) != v;
    assert Walk(mem, root, v.(i1 := j)) == l;
  }

  lemma SameRead(mem: Memory, root: nat, v: Vpn, i: Index, f: nat, k: Index)
    requires Walk(mem, root, v).Huge2M?
    ensures ReadsWord(mem, root, v.(i1 := i), f, k) <==> ReadsWord(mem, root, v, f, k)
  {
  }

  /** The tables after a word was cleared are a tree exactly if no table hung from it. */
  lemma TreeAfterClear(mem: Memory, node: map<Node, nat>, f: nat, i: Index)
    requires Tree(mem, node)
    ensures Tree(ClearWord(mem, f, i), node) <==> !HangsFrom(node, f, i)
  {
    var mem' := ClearWord(mem, f, i);
    hide ClearWord;
    forall n | n in node ensures IsTable(mem', node[n]) { EntryAfterClear(mem, f, i, node[n], 0); }
    forall n, j: Index | n in node
      ensures Entry(mem', node[n], j) == if node[n] == f && j == i then ABSENT else Entry(mem, node[n], j)
    {
      EntryAfterClear(mem, f, i, node[n], j);
    }
    if !HangsFrom(node, f, i) {
      forall n, j: Index | n in node && !n.Pt? ensures Linked(mem', node, n, j) { assert Linked(mem, node, n, j); }
    } else {
      var n :| n in node && !n.Pt? && node[n] == f && Child(n, i) in node;
      assert !Linked(mem', node, n, i);
    }
  }

  /** A table hangs from word i of frame f. */
  ghost predicate HangsFrom(node: map<Node, nat>, f: nat, i: Index) {
    exists n :: n in node && !n.Pt? && node[n] == f && Child(n, i) in node
  }
}
