/** The loader of kernel/process.c step by step, on values: which pages it maps, which bytes
    of which spaces it changes, and what two images at one address do to each other. */
module LoadSteps {
  import opened Words
  import opened ElfImage
  import opened ElfFormat
  import opened PageTables
  import opened Vmm
  import opened UserPages

  /** The leaf of page p in space o. */
  ghost function PageLeaf(s: State, o: Owner, p: nat): Leaf {
    LeafIn(s, o, PageVpn(p))
  }

  /** The byte at offset i of page p before a load: 0 where a page has yet to be mapped. */
  ghost function Before(s: State, o: Owner, p: nat, i: nat): Byte {
    var l := PageLeaf(s, o, p);
    if l.Mapped? && l.e.frame in s.mem && s.mem[l.e.frame].Bytes? && i < |s.mem[l.e.frame].data|
    then s.mem[l.e.frame].data[i] else 0
  }

  /** The byte due at offset i of page p when segments 0 .. n-1 and off bytes of segment n
      have been loaded into the space that was s0. */
  ghost function Due(s0: State, o: Owner, b: seq<Byte>, n: nat, off: nat, p: nat, i: nat): Byte
    requires HeaderOk(b) && n <= Phnum(b)
  {
    Want(b, n, off, p * 0x1000 + i, Before(s0, o, p, i))
  }

  function SegmentFlags(s: Segment): Flags { Flags(s.write, true, !s.exec) }

  /** Leaf l of page p carries the permissions of segment i, the first that covers p. */
  ghost predicate GrantedBy(b: seq<Byte>, i: nat, p: nat, l: Leaf)
    requires HeaderOk(b) && i < Phnum(b)
  {
    && Covers(SegmentAt(b, i), p) && !Target(b, i, p)
    && l.Mapped? && l.e == LeafPte(l.e.frame, SegmentFlags(SegmentAt(b, i)))
  }

  ghost predicate Entitled(b: seq<Byte>, n: nat, p: nat, l: Leaf)
    requires HeaderOk(b) && n <= Phnum(b)
  {
    exists i: nat :: i <= n && i < Phnum(b) && GrantedBy(b, i, p, l)
  }

  /** The leaf of page p since the start of the load: one that was mapped stays, one that
      is mapped now and was not has its segment's permissions, and the pages of the loaded
      segments are all mapped. */
  ghost predicate LeafLoad(s0: State, s: State, o: Owner, b: seq<Byte>, n: nat, p: nat)
    requires HeaderOk(b) && n <= Phnum(b)
  {
    var l0, l := PageLeaf(s0, o, p), PageLeaf(s, o, p);
    && (l0.Mapped? || !l.Mapped? ==> l == l0)
    && (l.Mapped? && !l0.Mapped? ==> Entitled(b, n, p, l))
    && (Target(b, n, p) ==> l.Mapped?)
  }

  /** Every byte of page p, if it is mapped, is the one due. */
  ghost predicate BytesLoad(s0: State, s: State, o: Owner, b: seq<Byte>, n: nat, off: nat, p: nat)
    requires HeaderOk(b) && n <= Phnum(b)
  {
    var l := PageLeaf(s, o, p);
    l.Mapped? ==> forall i: nat :: i < 0x1000 ==> Holds(s.mem, l.e.frame, i, Due(s0, o, b, n, off, p, i))
  }

  ghost predicate PageLoad(s0: State, s: State, o: Owner, b: seq<Byte>, n: nat, off: nat, p: nat)
    requires HeaderOk(b) && n <= Phnum(b)
  {
    LeafLoad(s0, s, o, b, n, p) && BytesLoad(s0, s, o, b, n, off, p)
  }

  /** Page w of space t, if the tables of o do not lead to it, is as it was. */
  ghost predicate OtherPage(s0: State, s: State, o: Owner, t: Owner, w: Vpn) {
    Via(t, w.i4) != Via(o, w.i4) ==> LeafIn(s, t, w) == LeafIn(s0, t, w) && PageStays(s0, s, t, w)
  }

  /** All that holds between s0 at the start of a load into space o and the state s in which
      segments 0 .. n-1 are loaded and off bytes of segment n are copied. */
  ghost predicate Loading(s0: State, s: State, o: Owner, b: seq<Byte>, n: nat, off: nat)
    requires HeaderOk(b) && n <= Phnum(b)
  {
    && Checked(b, n)
    && (forall p: nat :: p < PAGE_COUNT ==> PageLoad(s0, s, o, b, n, off, p))
    && (forall t, w :: OtherPage(s0, s, o, t, w))
  }

  lemma LoadingAt(s0: State, s: State, o: Owner, b: seq<Byte>, n: nat, off: nat, p: nat)
    requires HeaderOk(b) && n <= Phnum(b) && Loading(s0, s, o, b, n, off) && p < PAGE_COUNT
    ensures LeafLoad(s0, s, o, b, n, p) && BytesLoad(s0, s, o, b, n, off, p)
  {
    hide LeafLoad, BytesLoad;
    assert PageLoad(s0, s, o, b, n, off, p);
  }

  lemma LoadingIs(s0: State, s: State, o: Owner, b: seq<Byte>, n: nat, off: nat)
    requires HeaderOk(b) && n <= Phnum(b) && Checked(b, n)
    requires forall p: nat :: p < PAGE_COUNT ==> PageLoad(s0, s, o, b, n, off, p)
    requires forall t, w :: OtherPage(s0, s, o, t, w)
    ensures Loading(s0, s, o, b, n, off)
  {
  }

  lemma LoadingStart(s: State, o: Owner, b: seq<Byte>)
    requires HeaderOk(b) && Tidy(s)
    ensures Loading(s, s, o, b, 0, 0)
  {
    hide HeaderOk, SegmentAt, LeafAt, VpnOf, Covers, Tidy;
    forall p: nat | p < PAGE_COUNT ensures PageLoad(s, s, o, b, 0, 0, p) {
      if PageLeaf(s, o, p).Mapped? { DataAt(s, o, PageVpn(p)); }
    }
    forall t, w ensures OtherPage(s, s, o, t, w) {
      if LeafIn(s, t, w).Mapped? { DataAt(s, t, w); }
    }
  }

  // -------------------------------------------------------------- mapping pages

  /** Before the load looks at page p: a page that is not mapped never was. */
  lemma Unmapped(s0: State, s: State, o: Owner, b: seq<Byte>, n: nat, p: nat)
    requires HeaderOk(b) && n <= Phnum(b) && LeafLoad(s0, s, o, b, n, p) && !PageLeaf(s, o, p).Mapped?
    ensures PageLeaf(s0, o, p) == PageLeaf(s, o, p) && !Target(b, n, p)
  {
    hide HeaderOk, LeafAt, PageVpn, Target;
  }

  /** A page newly mapped for segment n starts out as the earlier segments want it. */
  lemma LoadingPlace(s0: State, s: State, total: nat, s': State, o: Owner, b: seq<Byte>, n: nat, p: nat, f: nat)
    requires HeaderOk(b) && n < Phnum(b) && Loading(s0, s, o, b, n, 0)
    requires SoundState(s, total) && Tidy(s) && !PageLeaf(s, o, p).Mapped? && p < PAGE_COUNT
    requires NewPage(s, s', o, p, f, SegmentFlags(SegmentAt(b, n))) && Covers(SegmentAt(b, n), p)
    ensures Loading(s0, s', o, b, n, 0) && PageLeaf(s', o, p).Mapped?
    ensures forall q: nat :: PageLeaf(s, o, q).Mapped? ==> PageLeaf(s', o, q).Mapped?
  {
    assert Checked(b, n) && forall t, w :: OtherPage(s0, s, o, t, w);
    var flags := SegmentFlags(SegmentAt(b, n));
    hide HeaderOk, SegmentAt, SoundState, Tidy, Loading, PageLoad, LeafLoad, BytesLoad, NewPage, LeafAt, PageVpn;
    hide Covers;
    hide Target, Checked, LeafPte;
    forall q: nat | q < PAGE_COUNT ensures PageLoad(s0, s', o, b, n, 0, q) {
      LoadingAt(s0, s, o, b, n, 0, q);
      if q == p { PlaceNew(s0, s, s', o, b, n, p, f); } else { PlaceOther(s0, s, total, s', o, b, n, p, f, q); }
      PageLoadIs(s0, s', o, b, n, 0, q);
    }
    forall t, w ensures OtherPage(s0, s', o, t, w) {
      assert OtherPage(s0, s, o, t, w);
      NewPageStays(s, total, s', o, p, f, flags, t, w);
      NewPageLeaf(s, s', o, p, f, flags, t, w);
    }
    LoadingIs(s0, s', o, b, n, 0);
    NewPageLeaf(s, s', o, p, f, flags, o, PageVpn(p));
    forall q: nat | PageLeaf(s, o, q).Mapped? ensures PageLeaf(s', o, q).Mapped? {
      NewPageStays(s, total, s', o, p, f, flags, o, PageVpn(q));
    }
  }

  lemma PageLoadIs(s0: State, s: State, o: Owner, b: seq<Byte>, n: nat, off: nat, p: nat)
    requires HeaderOk(b) && n <= Phnum(b) && LeafLoad(s0, s, o, b, n, p) && BytesLoad(s0, s, o, b, n, off, p)
    ensures PageLoad(s0, s, o, b, n, off, p)
  {
  }

  /** The new page itself: its segment is the first to cover it, and zeros are due. */
  lemma PlaceNew(s0: State, s: State, s': State, o: Owner, b: seq<Byte>, n: nat, p: nat, f: nat)
    requires HeaderOk(b) && n < Phnum(b) && Checked(b, n) && LeafLoad(s0, s, o, b, n, p) && !PageLeaf(s, o, p).Mapped?
    requires NewPage(s, s', o, p, f, SegmentFlags(SegmentAt(b, n))) && Covers(SegmentAt(b, n), p)
    ensures LeafLoad(s0, s', o, b, n, p) && BytesLoad(s0, s', o, b, n, 0, p)
  {
    var flags := SegmentFlags(SegmentAt(b, n));
    hide HeaderOk, SegmentAt, NewPage, LeafAt, PageVpn, Covers, Target, Checked, LeafPte, Want;
    Unmapped(s0, s, o, b, n, p);
    NewPageLeaf(s, s', o, p, f, flags, o, PageVpn(p));
    FrameOf(f, flags);
    assert GrantedBy(b, n, p, PageLeaf(s', o, p));
    NewPageZero(s, s', o, p, f, flags);
    hide Due;
    forall i: nat | i < 0x1000 ensures Holds(s'.mem, f, i, Due(s0, o, b, n, 0, p, i)) {
      ZeroDue(s0, o, b, n, p, i);
      assert Holds(s'.mem, f, i, 0);
    }
  }

  lemma ZeroDue(s0: State, o: Owner, b: seq<Byte>, n: nat, p: nat, i: nat)
    requires HeaderOk(b) && n <= Phnum(b) && Checked(b, n) && !Target(b, n, p) && !PageLeaf(s0, o, p).Mapped?
    requires i < 0x1000
    ensures Due(s0, o, b, n, 0, p, i) == 0
  {
    hide HeaderOk, SegmentAt, LeafAt, PageVpn, Target, Checked, Want;
    var a := p * 0x1000 + i;
    SameCell(p, i, a);
    NoneYet(b, n, a, 0);
    OverlayOutside(b, n, a, 0);
  }

  /** Every other page of the space keeps its leaf and its bytes. */
  lemma PlaceOther(s0: State, s: State, total: nat, s': State, o: Owner, b: seq<Byte>, n: nat, p: nat, f: nat, q: nat)
    requires HeaderOk(b) && n < Phnum(b) && SoundState(s, total) && Tidy(s) && !PageLeaf(s, o, p).Mapped?
    requires NewPage(s, s', o, p, f, SegmentFlags(SegmentAt(b, n))) && q != p && p < PAGE_COUNT && q < PAGE_COUNT
    requires LeafLoad(s0, s, o, b, n, q) && BytesLoad(s0, s, o, b, n, 0, q)
    ensures LeafLoad(s0, s', o, b, n, q) && BytesLoad(s0, s', o, b, n, 0, q)
  {
    var flags := SegmentFlags(SegmentAt(b, n));
    hide HeaderOk, SegmentAt, SoundState, Tidy, NewPage, LeafAt, PageVpn, Covers, Target, Due, Entitled;
    PagesDiffer(p, q);
    NewPageLeaf(s, s', o, p, f, flags, o, PageVpn(q));
    NewPageStays(s, total, s', o, p, f, flags, o, PageVpn(q));
    KeptBytes(s0, s, s', o, b, n, 0, q);
  }

  lemma KeptBytes(s0: State, s: State, s': State, o: Owner, b: seq<Byte>, n: nat, off: nat, p: nat)
    requires HeaderOk(b) && n <= Phnum(b) && BytesLoad(s0, s, o, b, n, off, p)
    requires PageLeaf(s', o, p) == PageLeaf(s, o, p) && PageStays(s, s', o, PageVpn(p))
    ensures BytesLoad(s0, s', o, b, n, off, p)
  {
    hide HeaderOk, LeafAt, PageVpn, Due;
    var l := PageLeaf(s, o, p);
    if l.Mapped? {
      forall i: nat | i < 0x1000 ensures Holds(s'.mem, l.e.frame, i, Due(s0, o, b, n, off, p, i)) {
        assert Holds(s.mem, l.e.frame, i, Due(s0, o, b, n, off, p, i));
      }
    }
  }

  lemma SameCell(p: nat, i: nat, a: nat)
    requires i < 0x1000
    ensures p * 0x1000 + i == a <==> p == a / 0x1000 && i == a % 0x1000
  {
  }

  // -------------------------------------------------------------- copying bytes

  /** s' is s after file byte off of segment n is stored in frame g, where the walk leads. */
  ghost predicate NextStored(s: State, s': State, o: Owner, b: seq<Byte>, n: nat, off: nat, g: nat)
    requires HeaderOk(b) && n < Phnum(b)
  {
    var g' := SegmentAt(b, n);
    var l := LeafIn(s, o, VpnOf(g'.vaddr + off));
    && g'.kind == PT_LOAD && off < g'.filesz && SegmentOk(b, g')
    && l.Mapped? && g == l.e.frame && DataFrame(s, g)
    && s' == s.(mem := s.mem[g := Bytes(s.mem[g].data[(g'.vaddr + off) % 0x1000 := b[g'.offset + off]])])
  }

  lemma StoreKeepsData(s: State, s': State, o: Owner, b: seq<Byte>, n: nat, off: nat, g: nat)
    requires HeaderOk(b) && n < Phnum(b) && NextStored(s, s', o, b, n, off, g)
    ensures forall f :: DataFrame(s, f) ==> DataFrame(s', f)
  {
    hide HeaderOk, SegmentAt, LeafAt, VpnOf, SegmentOk;
  }

  lemma LoadingStore(s0: State, s: State, s': State, o: Owner, b: seq<Byte>, n: nat, off: nat, g: nat)
    requires HeaderOk(b) && n < Phnum(b) && Loading(s0, s, o, b, n, off) && Tidy(s)
    requires NextStored(s, s', o, b, n, off, g) && SameLeaves(s.mem, s.node, s'.mem, s'.node)
    ensures Loading(s0, s', o, b, n, off + 1)
  {
    assert Checked(b, n) && forall t, w :: OtherPage(s0, s, o, t, w);
    hide HeaderOk, SegmentAt, Tidy, Loading, PageLoad, LeafLoad, BytesLoad, NextStored, LeafAt, PageVpn, SameLeaves;
    hide Checked;
    var next := off + 1;
    forall p: nat | p < PAGE_COUNT ensures PageLoad(s0, s', o, b, n, next, p) {
      LoadingAt(s0, s, o, b, n, off, p);
      SameAt(s.mem, s.node, s'.mem, s'.node, o, PageVpn(p));
      StoreLeaf(s0, s, s', o, b, n, p);
      StoreBytes(s0, s, s', o, b, n, off, g, p);
      PageLoadIs(s0, s', o, b, n, next, p);
    }
    forall t, w ensures OtherPage(s0, s', o, t, w) {
      assert OtherPage(s0, s, o, t, w);
      SameAt(s.mem, s.node, s'.mem, s'.node, t, w);
      StoreElsewhere(s, s', o, b, n, off, g, t, w);
    }
    LoadingIs(s0, s', o, b, n, next);
  }

  lemma StoreLeaf(s0: State, s: State, s': State, o: Owner, b: seq<Byte>, n: nat, p: nat)
    requires HeaderOk(b) && n <= Phnum(b) && LeafLoad(s0, s, o, b, n, p) && PageLeaf(s', o, p) == PageLeaf(s, o, p)
    ensures LeafLoad(s0, s', o, b, n, p)
  {
  }

  /** A frame behind a page that o's tables do not lead to is not the one written. */
  lemma StoreElsewhere(s: State, s': State, o: Owner, b: seq<Byte>, n: nat, off: nat, g: nat, t: Owner, w: Vpn)
    requires HeaderOk(b) && n < Phnum(b) && Tidy(s) && NextStored(s, s', o, b, n, off, g)
    requires LeafIn(s', t, w) == LeafIn(s, t, w)
    ensures Via(t, w.i4) != Via(o, w.i4) ==> PageStays(s, s', t, w)
  {
    hide HeaderOk, SegmentAt, Tidy, LeafAt, VpnOf, SegmentOk;
    if LeafIn(s, t, w).Mapped? && Via(t, w.i4) != Via(o, w.i4) {
      DataAt(s, t, w);
      if LeafIn(s, t, w).e.frame == g { OncePlaced(s, t, w, o, VpnOf(SegmentAt(b, n).vaddr + off)); }
    }
  }

  lemma StoreBytes(s0: State, s: State, s': State, o: Owner, b: seq<Byte>, n: nat, off: nat, g: nat, p: nat)
    requires HeaderOk(b) && n < Phnum(b) && Tidy(s) && NextStored(s, s', o, b, n, off, g) && p < PAGE_COUNT
    requires PageLeaf(s', o, p) == PageLeaf(s, o, p) && BytesLoad(s0, s, o, b, n, off, p)
    ensures BytesLoad(s0, s', o, b, n, off + 1, p)
  {
    hide HeaderOk, SegmentAt, Tidy, LeafAt, PageVpn, NextStored, Due, Holds;
    var l := PageLeaf(s, o, p);
    if l.Mapped? {
      CellOf(s, s', o, b, n, off, g, p);
      var next := off + 1;
      forall i: nat | i < 0x1000 ensures Holds(s'.mem, l.e.frame, i, Due(s0, o, b, n, next, p, i)) {
        assert Holds(s.mem, l.e.frame, i, Due(s0, o, b, n, off, p, i));
        StoreCell(s0, s, s', o, b, n, off, l.e.frame, g, p, i);
      }
    }
  }

  /** The next byte goes to page p's frame exactly if it lies in page p. */
  lemma CellOf(s: State, s': State, o: Owner, b: seq<Byte>, n: nat, off: nat, g: nat, p: nat)
    requires HeaderOk(b) && n < Phnum(b) && Tidy(s) && NextStored(s, s', o, b, n, off, g)
    requires PageLeaf(s, o, p).Mapped? && p < PAGE_COUNT
    ensures g == PageLeaf(s, o, p).e.frame <==> p == (SegmentAt(b, n).vaddr + off) / 0x1000
  {
    hide HeaderOk, SegmentAt, PageVpn, VpnOf, LeafAt, SegmentOk, Tidy;
    var a := SegmentAt(b, n).vaddr + off;
    PageVpnOf(a);
    FileByteAt(b, SegmentAt(b, n), off);
    if g == PageLeaf(s, o, p).e.frame && p != a / 0x1000 {
      OncePlaced(s, o, PageVpn(p), o, VpnOf(a));
      PagesDiffer(p, a / 0x1000);
    }
  }

  lemma StoreCell(s0: State, s: State, s': State, o: Owner, b: seq<Byte>, n: nat, off: nat, f: nat, g: nat, p: nat,
                  i: nat)
    requires HeaderOk(b) && n < Phnum(b) && i < 0x1000 && Holds(s.mem, f, i, Due(s0, o, b, n, off, p, i))
    requires NextStored(s, s', o, b, n, off, g) && (g == f <==> p == (SegmentAt(b, n).vaddr + off) / 0x1000)
    ensures Holds(s'.mem, f, i, Due(s0, o, b, n, off + 1, p, i))
  {
    WantNext(b, n, off, p * 0x1000 + i, Before(s0, o, p, i));
    SameCell(p, i, SegmentAt(b, n).vaddr + off);
    hide HeaderOk, SegmentAt, Want, SegmentOk, LeafAt, VpnOf, Before;
  }

  lemma NextStoredIs(s: State, s': State, o: Owner, b: seq<Byte>, n: nat, off: nat, g: nat)
    requires HeaderOk(b) && n < Phnum(b)
    requires var q := SegmentAt(b, n);
             var l := LeafIn(s, o, VpnOf(q.vaddr + off));
             && q.kind == PT_LOAD && off < q.filesz && SegmentOk(b, q)
             && l.Mapped? && g == l.e.frame && DataFrame(s, g)
             && s' == s.(mem := s.mem[g := Bytes(s.mem[g].data[(q.vaddr + off) % 0x1000 := b[q.offset + off]])])
    ensures NextStored(s, s', o, b, n, off, g)
  {
    hide LeafAt, VpnOf, SegmentAt, HeaderOk;
  }

  // --------------------------------------------------------------- one segment

  /** The pages of the segment below page hi are all mapped. */
  ghost predicate SegmentMapped(s: State, o: Owner, q: Segment, hi: nat) {
    forall p: nat :: Covers(q, p) && p < hi ==> PageLeaf(s, o, p).Mapped?
  }

  lemma SegmentDone(s0: State, s: State, o: Owner, b: seq<Byte>, n: nat, off: nat)
    requires HeaderOk(b) && n < Phnum(b) && Loading(s0, s, o, b, n, off)
    requires var q := SegmentAt(b, n);
             if q.kind == PT_LOAD then SegmentOk(b, q) && off == q.filesz && SegmentMapped(s, o, q, LastPage(q))
             else off == 0
    ensures Loading(s0, s, o, b, n + 1, 0)
  {
    assert Checked(b, n + 1) && forall t, w :: OtherPage(s0, s, o, t, w);
    var q, m := SegmentAt(b, n), n + 1;
    hide HeaderOk, SegmentAt, LeafAt, PageVpn, SegmentOk, LeafLoad, BytesLoad, PageLoad, Loading, Checked, OtherPage;
    forall p: nat | p < PAGE_COUNT ensures PageLoad(s0, s, o, b, m, 0, p) {
      LoadingAt(s0, s, o, b, n, off, p);
      DoneLeaf(s0, s, o, b, n, p);
      DoneBytes(s0, s, o, b, n, off, p);
      PageLoadIs(s0, s, o, b, m, 0, p);
    }
    LoadingIs(s0, s, o, b, m, 0);
  }

  lemma DoneLeaf(s0: State, s: State, o: Owner, b: seq<Byte>, n: nat, p: nat)
    requires HeaderOk(b) && n < Phnum(b) && LeafLoad(s0, s, o, b, n, p)
    requires var q := SegmentAt(b, n); q.kind == PT_LOAD ==> SegmentMapped(s, o, q, LastPage(q))
    ensures LeafLoad(s0, s, o, b, n + 1, p)
  {
    hide HeaderOk, SegmentAt, LeafAt, PageVpn, LeafPte;
    if Target(b, n + 1, p) && !Target(b, n, p) { assert Covers(SegmentAt(b, n), p); }
  }

  lemma DoneBytes(s0: State, s: State, o: Owner, b: seq<Byte>, n: nat, off: nat, p: nat)
    requires HeaderOk(b) && n < Phnum(b) && BytesLoad(s0, s, o, b, n, off, p)
    requires off == if SegmentAt(b, n).kind == PT_LOAD then SegmentAt(b, n).filesz else 0
    ensures BytesLoad(s0, s, o, b, n + 1, 0, p)
  {
    hide HeaderOk, SegmentAt, LeafAt, PageVpn, Holds;
    var l, m := PageLeaf(s, o, p), n + 1;
    if l.Mapped? {
      forall i: nat | i < 0x1000 ensures Holds(s.mem, l.e.frame, i, Due(s0, o, b, m, 0, p, i)) {
        assert Holds(s.mem, l.e.frame, i, Due(s0, o, b, n, off, p, i));
        NextDue(s0, o, b, n, off, p, i);
      }
    }
  }

  lemma NextDue(s0: State, o: Owner, b: seq<Byte>, n: nat, off: nat, p: nat, i: nat)
    requires HeaderOk(b) && n < Phnum(b)
    requires off == if SegmentAt(b, n).kind == PT_LOAD then SegmentAt(b, n).filesz else 0
    ensures Due(s0, o, b, n + 1, 0, p, i) == Due(s0, o, b, n, off, p, i)
  {
    hide HeaderOk, SegmentAt, Before;
    var a, x := p * 0x1000 + i, Before(s0, o, p, i);
    NoneYet(b, n + 1, a, x);
    if SegmentAt(b, n).kind == PT_LOAD { WantAll(b, n, a, x); } else { NoneYet(b, n, a, x); }
  }

  /** No page of the segment lies under a huge page. */
  ghost predicate NoHuge(s: State, o: Owner, q: Segment) {
    forall p: nat :: Covers(q, p) ==> !MeetsHuge(PageLeaf(s, o, p))
  }

  /** What the load knows of the next page of segment n before it looks. */
  lemma PageState(s0: State, s: State, o: Owner, b: seq<Byte>, n: nat, q: Segment, p: nat)
    requires HeaderOk(b) && n <= Phnum(b) && Loading(s0, s, o, b, n, 0)
    requires Covers(q, p) && SegmentOk(b, q) && NoHuge(s0, o, q)
    ensures p < PAGE_COUNT && !MeetsHuge(PageLeaf(s, o, p)) && PageVpn(p).i4 < 256
  {
    assert p < PAGE_COUNT && PageVpn(p).i4 < 256;
    hide HeaderOk, LeafAt, PageVpn, Target, Loading;
    LoadingAt(s0, s, o, b, n, 0, p);
  }

  /** The page of the next file byte is mapped. */
  lemma FileMapped(s: State, o: Owner, b: seq<Byte>, q: Segment, off: nat)
    requires q.kind == PT_LOAD && off < q.filesz && SegmentOk(b, q) && SegmentMapped(s, o, q, LastPage(q))
    ensures LeafIn(s, o, VpnOf(q.vaddr + off)).Mapped?
  {
    hide PageVpn, VpnOf, LeafAt;
    PageVpnOf(q.vaddr + off);
    FileByteAt(b, q, off);
  }

  // ------------------------------------------------------- what a load changes

  /** The byte that n loaded segments of image b leave where x was. */
  function Put(b: seq<Byte>, n: nat, a: nat, x: Byte): Byte {
    if HeaderOk(b) && n <= Phnum(b) then Overlay(b, n, a, x) else x
  }

  /** Every page of the first n segments reads, in space o, as the image over what was there,
      and over zeros where nothing was mapped. */
  ghost predicate ImageIn(s0: State, s: State, o: Owner, b: seq<Byte>, n: nat)
    requires HeaderOk(b) && n <= Phnum(b)
  {
    forall a: nat :: Target(b, n, a / 0x1000) && a / 0x1000 < PAGE_COUNT
                     ==> Reads(s, o, a, Overlay(b, n, a, Before(s0, o, a / 0x1000, a % 0x1000)))
  }

  /** Whatever could be read before the load, in any space, can be read after it: changed
      by the image where the tables of o lead, and as it was everywhere else. */
  ghost predicate LoadEffect(s0: State, s: State, o: Owner, b: seq<Byte>, n: nat) {
    forall t, a: nat, x :: a / 0x1000 < PAGE_COUNT && Reads(s0, t, a, x) ==> Reads(s, t, a, Changed(o, b, n, t, a, x))
  }

  function Changed(o: Owner, b: seq<Byte>, n: nat, t: Owner, a: nat, x: Byte): Byte {
    if Via(t, VpnOf(a).i4) == Via(o, VpnOf(a).i4) then Put(b, n, a, x) else x
  }

  /** Leaf l of page p is a user's, and has the permissions that the bytes of the first
      program header to reach into p ask for. */
  ghost predicate FromFile(b: seq<Byte>, p: nat, l: Leaf) {
    exists i: nat :: FirstLoads(b, i, p) && l.Mapped? && l.e.user && l.e.write == MayWrite(b, i)
                     && l.e.nx == !MayExecute(b, i)
  }

  /** A page of o that was mapped before the load keeps its leaf, permissions included; one
      that the load mapped has the permissions of the file. */
  ghost predicate Permitted(s0: State, s: State, o: Owner, b: seq<Byte>, p: nat) {
    var l0, l := PageLeaf(s0, o, p), PageLeaf(s, o, p);
    if l0.Mapped? || !l.Mapped? then l == l0 else FromFile(b, p, l)
  }

  ghost predicate AllPermitted(s0: State, s: State, o: Owner, b: seq<Byte>) {
    forall p: nat :: p < PAGE_COUNT ==> Permitted(s0, s, o, b, p)
  }

  lemma EntitledIs(b: seq<Byte>, n: nat, p: nat, l: Leaf)
    requires HeaderOk(b) && n <= Phnum(b) && Entitled(b, n, p, l)
    ensures FromFile(b, p, l)
  {
    var i: nat :| i <= n && i < Phnum(b) && GrantedBy(b, i, p, l);
    hide HeaderOk, SegmentAt, Little;
    SegmentFields(b, i);
    CoversIff(b, i, p);
    forall j: nat | j < i ensures HasPhdr(b, j) && !LoadsPage(b, j, p) {
      CoversIff(b, j, p);
      assert !Covers(SegmentAt(b, j), p);
    }
    assert FirstLoads(b, i, p);
  }

  lemma LoadedImage(s0: State, s: State, o: Owner, b: seq<Byte>, n: nat)
    requires HeaderOk(b) && n <= Phnum(b) && Loading(s0, s, o, b, n, 0)
    ensures ImageIn(s0, s, o, b, n) && AllPermitted(s0, s, o, b)
  {
    hide HeaderOk, SegmentAt, Loading, LeafAt, PageVpn, VpnOf, Overlay, Target, Before, Want, Entitled;
    forall a: nat | Target(b, n, a / 0x1000) && a / 0x1000 < PAGE_COUNT
      ensures Reads(s, o, a, Overlay(b, n, a, Before(s0, o, a / 0x1000, a % 0x1000)))
    {
      LoadingAt(s0, s, o, b, n, 0, a / 0x1000);
      ReadsDue(s0, s, o, b, n, a);
    }
    hide FromFile;
    forall p: nat | p < PAGE_COUNT ensures Permitted(s0, s, o, b, p) {
      LoadingAt(s0, s, o, b, n, 0, p);
      if PageLeaf(s, o, p).Mapped? && !PageLeaf(s0, o, p).Mapped? { EntitledIs(b, n, p, PageLeaf(s, o, p)); }
    }
  }

  lemma ReadsDue(s0: State, s: State, o: Owner, b: seq<Byte>, n: nat, a: nat)
    requires HeaderOk(b) && n <= Phnum(b) && BytesLoad(s0, s, o, b, n, 0, a / 0x1000)
    requires PageLeaf(s, o, a / 0x1000).Mapped?
    ensures Reads(s, o, a, Overlay(b, n, a, Before(s0, o, a / 0x1000, a % 0x1000)))
  {
    hide HeaderOk, LeafAt, PageVpn, VpnOf, Overlay, Before, Want;
    var p, i := a / 0x1000, a % 0x1000;
    PageVpnOf(a);
    NoneYet(b, n, a, Before(s0, o, p, i));
    assert Holds(s.mem, PageLeaf(s, o, p).e.frame, i, Due(s0, o, b, n, 0, p, i));
  }

  lemma LoadHasEffect(s0: State, s: State, o: Owner, b: seq<Byte>, n: nat)
    requires HeaderOk(b) && n <= Phnum(b) && Loading(s0, s, o, b, n, 0)
    ensures LoadEffect(s0, s, o, b, n)
  {
    assert forall t, w :: OtherPage(s0, s, o, t, w);
    hide HeaderOk, Loading, LeafAt, VpnOf, Overlay, Reads;
    forall t, a: nat, x | a / 0x1000 < PAGE_COUNT && Reads(s0, t, a, x)
      ensures Reads(s, t, a, Changed(o, b, n, t, a, x))
    {
      if Via(t, VpnOf(a).i4) == Via(o, VpnOf(a).i4) {
        LoadingAt(s0, s, o, b, n, 0, a / 0x1000);
        SeenThrough(s0, s, o, b, n, t, a, x);
      } else {
        assert OtherPage(s0, s, o, t, VpnOf(a));
        StaysReads(s0, s, t, a, x);
      }
    }
  }

  lemma StaysReads(s0: State, s: State, t: Owner, a: nat, x: Byte)
    requires PageStays(s0, s, t, VpnOf(a)) && Reads(s0, t, a, x)
    ensures Reads(s, t, a, x)
  {
  }

  /** A page that t reaches through the same tables as o. */
  lemma SeenThrough(s0: State, s: State, o: Owner, b: seq<Byte>, n: nat, t: Owner, a: nat, x: Byte)
    requires HeaderOk(b) && n <= Phnum(b) && Via(t, VpnOf(a).i4) == Via(o, VpnOf(a).i4) && Reads(s0, t, a, x)
    requires LeafLoad(s0, s, o, b, n, a / 0x1000) && BytesLoad(s0, s, o, b, n, 0, a / 0x1000)
    ensures Reads(s, t, a, Overlay(b, n, a, x))
  {
    hide HeaderOk, LeafAt, VpnOf, PageVpn, Overlay, Target, Entitled;
    PageVpnOf(a);
    SameVia(s0, t, o, VpnOf(a));
    SameVia(s, t, o, VpnOf(a));
    assert Before(s0, o, a / 0x1000, a % 0x1000) == x;
    ReadsDue(s0, s, o, b, n, a);
  }

  /** A state that nothing was loaded into. */
  lemma NoEffect(s0: State, s: State, o: Owner, b: seq<Byte>)
    requires !HeaderOk(b) && ReadsKept(s0, s)
    ensures LoadEffect(s0, s, o, b, 0)
  {
    hide Reads, HeaderOk;
  }

  // ------------------------------------------------------------------- a spawn

  /** No page of a segment that passes the checks lies under a huge page. */
  ghost predicate ClearOfHuge(s: State, o: Owner, b: seq<Byte>) {
    HeaderOk(b) ==> forall i :: 0 <= i < Phnum(b) && SegmentAt(b, i).kind == PT_LOAD && SegmentOk(b, SegmentAt(b, i))
                                ==> NoHuge(s, o, SegmentAt(b, i))
  }

  /** Spaces may come and go: an image that is clear of huge pages stays so. */
  lemma ClearKept(s: State, s': State, o: Owner, b: seq<Byte>)
    requires ClearOfHuge(s, o, b) && NoNewHuge(s, s')
    ensures ClearOfHuge(s', o, b)
  {
    hide LeafAt, SegmentAt, SegmentOk, Covers, PageVpn;
    if HeaderOk(b) {
      var m := Phnum(b);
      hide HeaderOk;
      forall i | 0 <= i < m && SegmentAt(b, i).kind == PT_LOAD && SegmentOk(b, SegmentAt(b, i))
        ensures NoHuge(s', o, SegmentAt(b, i))
      {
        assert NoHuge(s, o, SegmentAt(b, i));
      }
    }
  }

  /** Before a space is made, its walk can only lead through the kernel's shared slots. */
  lemma ClearForNew(s: State, total: nat, s': State, d: nat, b: seq<Byte>)
    requires SoundState(s, total) && Root(User(d)) !in s.node && SameLeaves(s.mem, s.node, s'.mem, s'.node)
    requires ClearOfHuge(s, Kernel, b)
    ensures ClearOfHuge(s', User(d), b)
  {
    hide SegmentAt, SegmentOk, Covers, PageVpn, Tree;
    if HeaderOk(b) {
      var m := Phnum(b);
      hide HeaderOk;
      forall i | 0 <= i < m && SegmentAt(b, i).kind == PT_LOAD && SegmentOk(b, SegmentAt(b, i))
        ensures NoHuge(s', User(d), SegmentAt(b, i))
      {
        assert NoHuge(s, Kernel, SegmentAt(b, i));
        forall p: nat | Covers(SegmentAt(b, i), p) ensures !MeetsHuge(PageLeaf(s', User(d), p)) {
          FreshSpace(s.mem, s.node, d, PageVpn(p));
        }
      }
    }
  }

  /** What a spawn does to all memory that could be read before it: the first n segments of
      the image go over the shared slots of every space, and nothing else changes. */
  ghost predicate SpawnEffect(s0: State, s: State, b: seq<Byte>, n: nat) {
    forall t, a: nat, x :: a / 0x1000 < PAGE_COUNT && Reads(s0, t, a, x)
                           ==> Reads(s, t, a, if SharedSlot(VpnOf(a).i4) then Put(b, n, a, x) else x)
  }

  /** s1 is s0 with a new space d, s2 is s1 after the load, s is s2 after the stack. */
  lemma SpawnChanges(s0: State, total: nat, s1: State, s2: State, s: State, d: nat, b: seq<Byte>, n: nat)
    requires SoundState(s0, total) && Root(User(d)) !in s0.node && (forall t, w :: PageStays(s0, s1, t, w))
    requires LoadEffect(s1, s2, User(d), b, n) && ReadsKept(s2, s)
    ensures SpawnEffect(s0, s, b, n)
  {
    TreeOf(s0, total);
    PagesStayReads(s0, s1);
    hide LeafAt, VpnOf, Put, SoundState, PageStays, Tree, Reads;
    forall t, a: nat, x | a / 0x1000 < PAGE_COUNT && Reads(s0, t, a, x)
      ensures Reads(s, t, a, if SharedSlot(VpnOf(a).i4) then Put(b, n, a, x) else x)
    {
      assert Reads(s1, t, a, x);
      assert Reads(s2, t, a, Changed(User(d), b, n, t, a, x));
      if t == User(d) { NothingPrivate(s0, d, a, x); }
    }
  }

  lemma NothingPrivate(s: State, d: nat, a: nat, x: Byte)
    requires Tree(s.mem, s.node) && Root(User(d)) !in s.node && Reads(s, User(d), a, x)
    ensures SharedSlot(VpnOf(a).i4)
  {
    FreshSpace(s.mem, s.node, d, VpnOf(a));
  }

  /** A spawn that fails drops its space again, and what it put in the shared slots stays. */
  lemma DropChanges(s0: State, total: nat, s: State, d: nat, b: seq<Byte>, n: nat)
    requires SoundState(s, total) && Root(User(d)) in s.node && SpawnEffect(s0, s, b, n)
    requires Tree(s0.mem, s0.node) && Root(User(d)) !in s0.node
    ensures SpawnEffect(s0, Dropped(s, d), b, n)
  {
    var s' := Dropped(s, d);
    TreeOf(s, total);
    hide LeafAt, VpnOf, Put, SoundState, Tree, Without, SpaceFrames, Holds;
    forall t, a: nat, x | a / 0x1000 < PAGE_COUNT && Reads(s0, t, a, x)
      ensures Reads(s', t, a, if SharedSlot(VpnOf(a).i4) then Put(b, n, a, x) else x)
    {
      var y := if SharedSlot(VpnOf(a).i4) then Put(b, n, a, x) else x;
      assert Reads(s, t, a, y);
      if t == User(d) { NothingPrivate(s0, d, a, x); }
      LeafWithout(s, d, t, VpnOf(a));
    }
  }

  /** What program header i lets a process do with a page. */
  function FileRights(b: seq<Byte>, i: nat): Rights
    requires HasPhdr(b, i)
  {
    Rights(MayWrite(b, i), true, !MayExecute(b, i))
  }

  /** The user of space o has access to page p: as the first program header to reach into it
      says, or as before if the page was mapped before. */
  ghost predicate Access(s0: State, s: State, o: Owner, b: seq<Byte>, p: nat) {
    var l0, w := PageLeaf(s0, o, p), PageVpn(p);
    && Root(o) in s.node && UserWord(s.mem, s.node[Root(o)], w.i4) && PageLeaf(s, o, p).Mapped?
    && var r := Granted(s.mem, s.node[Root(o)], w);
       if l0.Mapped? then PageLeaf(s, o, p) == l0 && r == Rights(l0.e.write, true, l0.e.nx)
       else exists i: nat :: FirstLoads(b, i, p) && r == FileRights(b, i)
  }

  /** A process can begin in space o: its image is there, it has access to every page that a
      program header reaches into, and 16 KiB of zeros below the top of its stack. */
  ghost predicate Ready(s0: State, s: State, o: Owner, b: seq<Byte>) {
    && HeaderOk(b) && ImageIn(s0, s, o, b, Phnum(b)) && ImageOpen(s0, s, o, b)
    && forall a: nat :: STACK_TOP - 0x4000 <= a < STACK_TOP ==> StackByte(s, o, a)
  }

  ghost predicate ImageOpen(s0: State, s: State, o: Owner, b: seq<Byte>) {
    forall i: nat, p: nat :: HasPhdr(b, i) && LoadsPage(b, i, p) ==> Access(s0, s, o, b, p)
  }

  /** s1 is s0 with a new space d, s2 is s1 after the load, s is s2 after the stack. */
  lemma ImageOpens(s0: State, s1: State, s2: State, s: State, total: nat, d: nat, b: seq<Byte>)
    requires SameLeaves(s0.mem, s0.node, s1.mem, s1.node) && ImageOk(b) && AllPermitted(s1, s2, User(d), b)
    requires ImageIn(s1, s2, User(d), b, Phnum(b)) && PagesStay(s2, s)
    requires SoundState(s, total) && Tidy(s) && Root(User(d)) in s.node
    ensures ImageOpen(s0, s, User(d), b)
  {
    hide Access, SameLeaves, AllPermitted, ImageIn, PagesStay, SoundState, Tidy, LoadsPage, Checked, HeaderOk;
    forall i: nat, p: nat | HasPhdr(b, i) && LoadsPage(b, i, p) ensures Access(s0, s, User(d), b, p) {
      PageTarget(b, i, p);
      PageOpens(s0, s1, s2, s, total, d, b, p);
    }
  }

  lemma PageTarget(b: seq<Byte>, i: nat, p: nat)
    requires ImageOk(b) && HasPhdr(b, i) && LoadsPage(b, i, p)
    ensures p < PAGE_COUNT && Target(b, Phnum(b), p)
  {
    HeaderFields(b);
    hide Little, HeaderOk, Word16, Word64;
    CoversIff(b, i, p);
    assert SegmentOk(b, SegmentAt(b, i));
  }

  lemma PageOpens(s0: State, s1: State, s2: State, s: State, total: nat, d: nat, b: seq<Byte>, p: nat)
    requires SameLeaves(s0.mem, s0.node, s1.mem, s1.node) && HeaderOk(b) && AllPermitted(s1, s2, User(d), b)
    requires ImageIn(s1, s2, User(d), b, Phnum(b)) && PagesStay(s2, s) && p < PAGE_COUNT && Target(b, Phnum(b), p)
    requires SoundState(s, total) && Tidy(s) && Root(User(d)) in s.node
    ensures Access(s0, s, User(d), b, p)
  {
    var o, w := User(d), PageVpn(p);
    SameAt(s0.mem, s0.node, s1.mem, s1.node, o, w);
    ImageMapped(s1, s2, o, b, p);
    assert Permitted(s1, s2, o, b, p) && PageStays(s2, s, o, w);
    hide SameLeaves, HeaderOk, AllPermitted, ImageIn, PagesStay, SoundState, Tidy, LeafAt, PageVpn, Granted, Target;
    hide HasPhdr, FirstLoads;
    PageGrants(s, total, d, w);
  }

  lemma ImageMapped(s0: State, s: State, o: Owner, b: seq<Byte>, p: nat)
    requires HeaderOk(b) && ImageIn(s0, s, o, b, Phnum(b)) && p < PAGE_COUNT && Target(b, Phnum(b), p)
    ensures PageLeaf(s, o, p).Mapped?
  {
    var a, n := p * 0x1000, Phnum(b);
    Multiple(p);
    hide HeaderOk, LeafAt, Overlay, Before, Target, VpnOf;
    assert Reads(s, o, a, Overlay(b, n, a, Before(s0, o, a / 0x1000, a % 0x1000)));
  }

  lemma AllChecked(s0: State, s: State, o: Owner, b: seq<Byte>, n: nat)
    requires HeaderOk(b) && n == Phnum(b) && Loading(s0, s, o, b, n, 0)
    ensures ImageOk(b)
  {
  }

  lemma ImageKept(s0: State, s1: State, s2: State, s: State, o: Owner, b: seq<Byte>, n: nat)
    requires HeaderOk(b) && n <= Phnum(b) && ImageIn(s1, s2, o, b, n) && ReadsKept(s2, s) && Tidy(s0)
    requires SameLeaves(s0.mem, s0.node, s1.mem, s1.node) && forall t, w :: PageStays(s0, s1, t, w)
    ensures ImageIn(s0, s, o, b, n)
  {
    hide LeafAt, SegmentAt, HeaderOk, Covers, PageVpn, VpnOf, Target, Overlay, SameLeaves, Tidy, Reads;
    forall a: nat | Target(b, n, a / 0x1000) && a / 0x1000 < PAGE_COUNT
      ensures Reads(s, o, a, Overlay(b, n, a, Before(s0, o, a / 0x1000, a % 0x1000)))
    {
      var p := a / 0x1000;
      SameAt(s0.mem, s0.node, s1.mem, s1.node, o, PageVpn(p));
      assert PageStays(s0, s1, o, PageVpn(p));
      if PageLeaf(s0, o, p).Mapped? { DataAt(s0, o, PageVpn(p)); }
      assert Before(s1, o, p, a % 0x1000) == Before(s0, o, p, a % 0x1000);
    }
  }

  // ------------------------------------------------- two images at one address

  lemma ReadsOne(s: State, t: Owner, a: nat, x: Byte, y: Byte)
    requires Reads(s, t, a, x) && Reads(s, t, a, y)
    ensures x == y
  {
  }

  /** A spawn leaves a byte that some space could read intact exactly if it lies outside the
      shared slots, or the new image puts the same byte there or none. */
  lemma IntactIff(s0: State, s: State, b: seq<Byte>, n: nat, t: Owner, a: nat, x: Byte)
    requires SpawnEffect(s0, s, b, n) && Reads(s0, t, a, x) && a / 0x1000 < PAGE_COUNT
    ensures Reads(s, t, a, x) <==> !SharedSlot(VpnOf(a).i4) || Put(b, n, a, x) == x
  {
    hide Reads, VpnOf, Put;
    var y := if SharedSlot(VpnOf(a).i4) then Put(b, n, a, x) else x;
    assert Reads(s, t, a, y);
    if Reads(s, t, a, x) { ReadsOne(s, t, a, x, y); }
  }

  /** Two images with an address in common in a shared slot: the first process no longer
      reads its own image there but the second over the first, the same byte that the
      second process reads; so zeros due to the second where it supplies no file byte are
      what the first left. */
  lemma SecondImage(s0: State, s1: State, s2: State, o: Owner, b: seq<Byte>, u: Owner, c: seq<Byte>, a: nat)
    requires HeaderOk(b) && ImageIn(s0, s1, o, b, Phnum(b)) && Target(b, Phnum(b), a / 0x1000)
    requires HeaderOk(c) && ImageIn(s1, s2, u, c, Phnum(c)) && SpawnEffect(s1, s2, c, Phnum(c))
    requires a / 0x1000 < PAGE_COUNT && SharedSlot(VpnOf(a).i4)
    ensures var y := Overlay(c, Phnum(c), a, Overlay(b, Phnum(b), a, Before(s0, o, a / 0x1000, a % 0x1000)));
            Reads(s2, o, a, y) && Reads(s2, u, a, y)
  {
    var x := Overlay(b, Phnum(b), a, Before(s0, o, a / 0x1000, a % 0x1000));
    assert Reads(s1, o, a, x) && Put(c, Phnum(c), a, x) == Overlay(c, Phnum(c), a, x);
    hide HeaderOk, Overlay, Target, LeafAt, VpnOf, Before;
    assert Reads(s2, o, a, Overlay(c, Phnum(c), a, x));
    SameVia(s2, o, u, VpnOf(a));
  }

  /** Image b, loaded into o, and then image c, loaded into u, have one memory between
      them in the shared slots: both spaces read c over b. */
  ghost predicate OneMemory(s0: State, s: State, o: Owner, b: seq<Byte>, u: Owner, c: seq<Byte>)
    requires HeaderOk(b) && HeaderOk(c)
  {
    forall a: nat :: Target(b, Phnum(b), a / 0x1000) && a / 0x1000 < PAGE_COUNT && SharedSlot(VpnOf(a).i4) ==>
      var y := Overlay(c, Phnum(c), a, Overlay(b, Phnum(b), a, Before(s0, o, a / 0x1000, a % 0x1000)));
      Reads(s, o, a, y) && Reads(s, u, a, y)
  }

  lemma TwoImages(s0: State, s1: State, s2: State, o: Owner, b: seq<Byte>, u: Owner, c: seq<Byte>)
    requires HeaderOk(b) && ImageIn(s0, s1, o, b, Phnum(b))
    requires HeaderOk(c) && ImageIn(s1, s2, u, c, Phnum(c)) && SpawnEffect(s1, s2, c, Phnum(c))
    ensures OneMemory(s0, s2, o, b, u, c)
  {
    forall a: nat | Target(b, Phnum(b), a / 0x1000) && a / 0x1000 < PAGE_COUNT && SharedSlot(VpnOf(a).i4)
      ensures var y := Overlay(c, Phnum(c), a, Overlay(b, Phnum(b), a, Before(s0, o, a / 0x1000, a % 0x1000)));
              Reads(s2, o, a, y) && Reads(s2, u, a, y)
    {
      SecondImage(s0, s1, s2, o, b, u, c, a);
    }
  }

  /** Both user images are linked at this address, which every space shares. */
  const LINK_ADDRESS: nat := 0x20_0000_0000

  lemma LinkAddressShared(a: nat)
    requires LINK_ADDRESS <= a < LINK_ADDRESS + 0x60_0000_0000
    ensures SharedSlot(VpnOf(a).i4) && a / 0x1000 < PAGE_COUNT
  {
  }
}
