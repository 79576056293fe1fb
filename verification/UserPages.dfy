/** The 4 KiB pages that kernel/process.c maps for users, and the bytes behind them: what a
    new zeroed page, a write to a page, a new space and a dropped space leave alone. */
module UserPages {
  import opened Words
  import opened PageTables
  import opened Pmm
  import opened Vmm

  /** Memory, the places of the tables in it, and the free frames. */
  datatype State = State(mem: Memory, node: map<Node, nat>, free: set<nat>)

  /** The leaf of page w in space t. */
  ghost function LeafIn(s: State, t: Owner, w: Vpn): Leaf {
    LeafAt(s.mem, s.node, t, w)
  }

  ghost predicate SoundState(s: State, total: nat) {
    Sound(s.mem, s.node, s.free, total)
  }

  /** Frame f holds bytes, is in use, and is not frame 0. */
  predicate DataFrame(s: State, f: nat) {
    f in s.mem && s.mem[f].Bytes? && |s.mem[f].data| == 0x1000 && f !in s.free && f != 0
  }

  /** Every 4 KiB page of every space maps a frame of bytes. */
  ghost predicate MapsData(s: State) {
    forall t, w :: LeafIn(s, t, w).Mapped? ==> DataFrame(s, LeafIn(s, t, w).e.frame)
  }

  /** Page w of space t and page v of space u are mapped to one frame. */
  ghost predicate SameFrame(s: State, t: Owner, w: Vpn, u: Owner, v: Vpn) {
    LeafIn(s, t, w).Mapped? && LeafIn(s, u, v).Mapped? && LeafIn(s, t, w).e.frame == LeafIn(s, u, v).e.frame
  }

  /** No frame is behind two pages, except that all spaces see the shared slots. */
  ghost predicate MappedOnce(s: State) {
    forall t, w, u, v :: SameFrame(s, t, w, u, v) ==> w == v && Via(t, w.i4) == Via(u, v.i4)
  }

  /** Page w of space t, if it is mapped, lies in the lower half of the addresses, is a
      user's, and every word that leads there admits users. */
  ghost predicate OpenPage(s: State, t: Owner, w: Vpn) {
    var n3, n2 := Pdpt(Via(t, w.i4), w.i4), PdOf(t, w);
    LeafIn(s, t, w).Mapped? ==>
      && w.i4 < 256 && LeafIn(s, t, w).e.user
      && n3 in s.node && UserWord(s.mem, s.node[n3], w.i3) && n2 in s.node && UserWord(s.mem, s.node[n2], w.i2)
      && (t.User? && Root(t) in s.node ==> UserWord(s.mem, s.node[Root(t)], w.i4))
  }

  /** Slot 0 of a user's root admits users. */
  ghost predicate OpenRoot(s: State, d: nat) {
    Root(User(d)) in s.node ==> UserWord(s.mem, s.node[Root(User(d))], 0)
  }

  /** Users can get to every 4 KiB page of every user space. */
  ghost predicate Open(s: State) {
    (forall t, w :: OpenPage(s, t, w)) && forall d :: OpenRoot(s, d)
  }

  /** No huge page is open to users. */
  ghost predicate Closed(s: State) {
    forall t, w :: MeetsHuge(LeafIn(s, t, w)) ==> !LeafIn(s, t, w).e.user
  }

  ghost predicate Tidy(s: State) {
    MapsData(s) && MappedOnce(s) && Open(s) && Closed(s)
  }

  lemma DataAt(s: State, t: Owner, w: Vpn)
    requires Tidy(s) && LeafIn(s, t, w).Mapped?
    ensures DataFrame(s, LeafIn(s, t, w).e.frame)
  {
    hide LeafAt, MappedOnce, Open, Closed;
  }

  lemma OncePlaced(s: State, t: Owner, w: Vpn, u: Owner, v: Vpn)
    requires Tidy(s) && SameFrame(s, t, w, u, v)
    ensures w == v && Via(t, w.i4) == Via(u, v.i4)
  {
    hide LeafAt, MapsData, Open, Closed;
  }

  lemma OpenAt(s: State, t: Owner, w: Vpn)
    requires Tidy(s)
    ensures OpenPage(s, t, w) && (t.User? ==> OpenRoot(s, t.id))
  {
    hide OpenPage, OpenRoot, MapsData, MappedOnce, Closed;
  }

  lemma ClosedAt(s: State, t: Owner, w: Vpn)
    requires Tidy(s) && MeetsHuge(LeafIn(s, t, w))
    ensures !LeafIn(s, t, w).e.user
  {
    hide LeafAt, Open, MapsData, MappedOnce;
  }

  /** No process can touch a page of the kernel's own maps: its root leads there, for the
      kernel to run, but the hardware refuses the user. */
  lemma KernelShut(s: State, total: nat, d: nat, w: Vpn)
    requires SoundState(s, total) && Tidy(s) && Root(User(d)) in s.node && LeafIn(s, User(d), w).Huge2M?
    ensures var e, r := LeafIn(s, User(d), w).e, GrantedLarge(s.mem, s.node[Root(User(d))], w);
            !r.user && r.write == e.write && r.nx == e.nx
  {
    ClosedAt(s, User(d), w);
    TreeOf(s, total);
    hide Tidy, SoundState, Tree, LeafAt, GrantedLarge;
    RightsOfHuge(s.mem, s.node, User(d), w);
  }

  /** What the hardware grants a process at any of its pages is what the page's own word
      says; no word above it stands in the way. */
  lemma PageGrants(s: State, total: nat, d: nat, w: Vpn)
    requires SoundState(s, total) && Tidy(s) && Root(User(d)) in s.node && LeafIn(s, User(d), w).Mapped?
    ensures var e, root := LeafIn(s, User(d), w).e, s.node[Root(User(d))];
            UserWord(s.mem, root, w.i4) && Granted(s.mem, root, w) == Rights(e.write, true, e.nx)
  {
    OpenAt(s, User(d), w);
    TreeOf(s, total);
    hide Tidy, SoundState, Tree, LeafAt, Granted;
    RightsOfLeaf(s.mem, s.node, User(d), w, LeafIn(s, User(d), w).e);
  }

  lemma TreeOf(s: State, total: nat)
    requires SoundState(s, total)
    ensures Tree(s.mem, s.node) && forall n :: n in s.node ==> IsTable(s.mem, s.node[n])
  {
  }

  // --------------------------------------------------------------------- pages

  function ZeroPage(): (p: Page)
    ensures p.Bytes? && |p.data| == 0x1000 && forall i :: 0 <= i < 0x1000 ==> p.data[i] == 0
  {
    Bytes(seq(0x1000, _ => 0))
  }

  /** The page of the virtual address p * 4096. */
  function PageVpn(p: nat): Vpn { VpnOf(p * 0x1000) }

  lemma PageVpnOf(a: nat)
    ensures PageVpn(a / 0x1000) == VpnOf(a)
  {
    OnePage(a / 0x1000 * 0x1000, a);
  }

  lemma OnePage(a: nat, c: nat)
    requires a / 0x1000 == c / 0x1000
    ensures VpnOf(a) == VpnOf(c)
  {
  }

  lemma PageNumberOf(p: nat)
    requires p < 0x10_0000_0000
    ensures PageNumber(p * 0x1000) == p
  {
  }

  lemma PagesDiffer(p: nat, q: nat)
    requires p != q && p < 0x10_0000_0000 && q < 0x10_0000_0000
    ensures PageVpn(p) != PageVpn(q)
  {
    hide VpnOf, PageNumber;
    PageNumberOf(p);
    PageNumberOf(q);
    SameVpn(p * 0x1000, q * 0x1000);
  }

  lemma Multiple(p: nat)
    ensures p * 0x1000 % 0x1000 == 0 && p * 0x1000 / 0x1000 == p
  {
  }

  // ------------------------------------------------------------------- reading

  predicate Holds(mem: Memory, f: nat, i: nat, x: Byte) {
    f in mem && mem[f].Bytes? && i < |mem[f].data| && mem[f].data[i] == x
  }

  /** Reading address a in space t gives x. */
  ghost predicate Reads(s: State, t: Owner, a: nat, x: Byte) {
    var l := LeafIn(s, t, VpnOf(a));
    l.Mapped? && Holds(s.mem, l.e.frame, a % 0x1000, x)
  }

  /** Whatever could be read, in any space, still reads the same. */
  ghost predicate ReadsKept(s: State, s': State) {
    forall t, a: nat, x :: Reads(s, t, a, x) ==> Reads(s', t, a, x)
  }

  lemma ReadsKeptOn(s: State, s1: State, s2: State)
    requires ReadsKept(s, s1) && ReadsKept(s1, s2)
    ensures ReadsKept(s, s2)
  {
    hide Reads;
  }

  /** The page keeps its leaf, and the frame behind it its bytes. */
  ghost predicate PageStays(s: State, s': State, t: Owner, w: Vpn) {
    LeafIn(s, t, w).Mapped? ==>
      var g := LeafIn(s, t, w).e.frame;
      LeafIn(s', t, w) == LeafIn(s, t, w) && g in s.mem && g in s'.mem && s'.mem[g] == s.mem[g]
  }

  lemma PagesStayReads(s: State, s': State)
    requires forall t, w :: PageStays(s, s', t, w)
    ensures ReadsKept(s, s')
  {
    hide LeafAt, VpnOf;
    forall t, a: nat, x | Reads(s, t, a, x) ensures Reads(s', t, a, x) { assert PageStays(s, s', t, VpnOf(a)); }
  }

  /** Every page keeps its leaf and its bytes. */
  ghost predicate PagesStay(s: State, s': State) {
    forall t, w :: PageStays(s, s', t, w)
  }

  lemma PagesStayOn(s: State, s1: State, s2: State)
    requires PagesStay(s, s1) && PagesStay(s1, s2)
    ensures PagesStay(s, s2)
  {
    hide LeafAt;
    forall t, w ensures PageStays(s, s2, t, w) { assert PageStays(s, s1, t, w) && PageStays(s1, s2, t, w); }
  }

  lemma PagesStayItself(s: State)
    requires Tidy(s)
    ensures PagesStay(s, s)
  {
    hide LeafAt, Tidy;
    forall t, w ensures PageStays(s, s, t, w) {
      if LeafIn(s, t, w).Mapped? { DataAt(s, t, w); }
    }
  }

  // ------------------------------------------------------------------ the tables

  /** Tables are added, but no root. */
  ghost predicate NodesGrow(node: map<Node, nat>, node': map<Node, nat>) {
    && (forall n :: n in node ==> n in node' && node'[n] == node[n])
    && (forall n :: n in node' && n !in node ==> !n.Root?)
  }

  /** No page comes to lie under a huge page. */
  ghost predicate NoNewHuge(s: State, s': State) {
    forall o, v :: MeetsHuge(LeafIn(s', o, v)) ==> MeetsHuge(LeafIn(s, o, v))
  }

  ghost predicate Extends(s: State, s': State) {
    NodesGrow(s.node, s'.node) && NoNewHuge(s, s')
  }

  lemma ExtendsOn(s: State, s1: State, s2: State, o: Owner)
    requires Extends(s, s1) && Extends(s1, s2)
    ensures Extends(s, s2) && (Root(o) in s.node ==> Root(o) in s2.node)
  {
  }

  lemma ExtendsItself(s: State)
    ensures Extends(s, s) && ReadsKept(s, s)
  {
  }

  lemma HugeOn(s: State, s1: State, s2: State)
    requires NoNewHuge(s, s1) && NoNewHuge(s1, s2)
    ensures NoNewHuge(s, s2)
  {
  }

  /** No table is altered. */
  ghost predicate TablesKept(mem: Memory, mem': Memory, node: map<Node, nat>) {
    forall n :: n in node && node[n] in mem ==> node[n] in mem' && mem'[node[n]] == mem[node[n]]
  }

  lemma TablesAlike(mem: Memory, node: map<Node, nat>)
    ensures TablesKept(mem, mem, node)
  {
  }

  lemma TablesKeptOn(mem: Memory, mem1: Memory, mem2: Memory, node: map<Node, nat>)
    requires TablesKept(mem, mem1, node) && TablesKept(mem1, mem2, node)
    ensures TablesKept(mem, mem2, node)
  {
  }

  /** No table word that admits users is lost. */
  ghost predicate WordsKept(s: State, s': State) {
    forall n, i: Index :: n in s.node && UserWord(s.mem, s.node[n], i)
                          ==> n in s'.node && s'.node[n] == s.node[n] && UserWord(s'.mem, s.node[n], i)
  }

  lemma OpenKept(s: State, s': State, t: Owner, w: Vpn)
    requires Tidy(s) && WordsKept(s, s') && LeafIn(s', t, w) == LeafIn(s, t, w)
    requires Root(t) in s'.node ==> Root(t) in s.node
    ensures OpenPage(s', t, w) && (t.User? ==> OpenRoot(s', t.id))
  {
    OpenAt(s, t, w);
    hide Tidy, LeafAt, UserWord;
  }

  /** Writing data extends nothing. */
  lemma ExtendsData(s0: State, s: State, s': State)
    requires Extends(s0, s) && Tree(s.mem, s.node) && s'.node == s.node && TablesKept(s.mem, s'.mem, s.node)
    ensures Extends(s0, s')
  {
    OutsideWrite(s.mem, s'.mem, s.node);
  }

  // -------------------------------------------------------------------- writing

  /** A frame of bytes may be written: no table, no leaf and no accounting changes. */
  lemma WriteKeeps(s: State, total: nat, f: nat, page: Page)
    requires SoundState(s, total) && f in s.mem && s.mem[f].Bytes?
    ensures var s' := s.(mem := s.mem[f := page]);
            SoundState(s', total) && SameLeaves(s.mem, s.node, s'.mem, s.node) && TablesKept(s.mem, s'.mem, s.node)
  {
    var mem := s.mem[f := page];
    forall n | n in s.node ensures s.node[n] != f { assert IsTable(s.mem, s.node[n]); }
    OutsideWrite(s.mem, mem, s.node);
    forall d | Root(User(d)) in s.node ensures SpaceOk(mem, s.node, s.free, total, d) {
      assert SpaceOk(s.mem, s.node, s.free, total, d);
    }
  }

  /** A frame just taken from the allocator may be written. */
  lemma TakeKeeps(s: State, total: nat, f: nat, page: Page)
    requires SoundState(s, total) && f in s.free
    ensures var s' := State(s.mem[f := page], s.node, s.free - {f});
            SoundState(s', total) && SameLeaves(s.mem, s.node, s'.mem, s.node) && Fresh(s.node, f)
  {
    var mem, free := s.mem[f := page], s.free - {f};
    OutsideWrite(s.mem, mem, s.node);
    forall d | Root(User(d)) in s.node ensures SpaceOk(mem, s.node, free, total, d) {
      assert SpaceOk(s.mem, s.node, s.free, total, d);
    }
  }

  /** Where no leaf changes and data stays data, the pages stay tidy. */
  lemma TidyStays(s: State, s': State)
    requires Tidy(s) && SameLeaves(s.mem, s.node, s'.mem, s'.node) && forall f :: DataFrame(s, f) ==> DataFrame(s', f)
    requires Open(s')
    ensures Tidy(s')
  {
    hide LeafAt, DataFrame, Open;
    forall t, w ensures LeafIn(s', t, w) == LeafIn(s, t, w) {}
    forall t, w | LeafIn(s', t, w).Mapped? ensures DataFrame(s', LeafIn(s', t, w).e.frame) {
      assert DataFrame(s, LeafIn(s, t, w).e.frame);
    }
    forall t, w, u, v | SameFrame(s', t, w, u, v) ensures w == v && Via(t, w.i4) == Via(u, v.i4) {
      assert SameFrame(s, t, w, u, v);
    }
    forall t, w | MeetsHuge(LeafIn(s', t, w)) ensures !LeafIn(s', t, w).e.user {
      assert !LeafIn(s, t, w).e.user;
    }
  }

  /** Where no table changes, what was open stays open. */
  lemma OpenStays(s: State, s': State)
    requires Tidy(s) && SameLeaves(s.mem, s.node, s'.mem, s'.node) && s'.node == s.node
    requires TablesKept(s.mem, s'.mem, s.node)
    ensures Open(s')
  {
    WordsStay(s, s');
    hide Tidy, LeafAt, OpenPage, OpenRoot, WordsKept, SameLeaves;
    forall t, w ensures OpenPage(s', t, w) {
      SameAt(s.mem, s.node, s'.mem, s'.node, t, w);
      OpenKept(s, s', t, w);
    }
    forall d ensures OpenRoot(s', d) {
      var w := Vpn(0, 0, 0, 0);
      SameAt(s.mem, s.node, s'.mem, s'.node, User(d), w);
      OpenKept(s, s', User(d), w);
    }
  }

  lemma WordsStay(s: State, s': State)
    requires s'.node == s.node && TablesKept(s.mem, s'.mem, s.node)
    ensures WordsKept(s, s')
  {
  }

  // ---------------------------------------------------------------- a new page

  /** What mapping a new zeroed page does: frame f, free before, now holds zeros behind
      page p of space o; all other leaves and all other contents in use stay. */
  ghost predicate NewPage(s: State, s': State, o: Owner, p: nat, f: nat, flags: Flags) {
    && f in s.free && f !in s'.free && f != 0 && s'.free <= s.free && f in s'.mem && s'.mem[f] == ZeroPage()
    && LeafSet(s.mem, s.node, s'.mem, s'.node, o, PageVpn(p), Mapped(LeafPte(f, flags)))
    && (forall g :: g in s.mem && g !in s.free && Fresh(s.node, g) ==> g in s'.mem && s'.mem[g] == s.mem[g])
    && NodesGrow(s.node, s'.node) && WordsKept(s, s')
    && flags.user && PageVpn(p).i4 < 256 && UserPath(s'.mem, s'.node, o, PageVpn(p))
  }

  lemma NewPageOf(s: State, total: nat, s': State, o: Owner, p: nat, f: nat, flags: Flags)
    requires SoundState(s, total) && Tidy(s) && !LeafIn(s, o, PageVpn(p)).Mapped?
    requires f in s.free && f != 0 && Fresh(s.node, f) && SameLeaves(s.mem, s.node, s.mem[f := ZeroPage()], s.node)
    requires Grows(s.mem[f := ZeroPage()], s.node, s.free - {f}, s'.mem, s'.node, s'.free)
    requires LeafSet(s.mem[f := ZeroPage()], s.node, s'.mem, s'.node, o, PageVpn(p), Mapped(LeafPte(f, flags)))
    requires flags.user && PageVpn(p).i4 < 256 && UserPath(s'.mem, s'.node, o, PageVpn(p))
    ensures NewPage(s, s', o, p, f, flags) && Tidy(s')
  {
    WordsGrow(s, s', f);
    NewPageIs(s, s', o, p, f, flags);
    hide NewPage, Grows, SoundState;
    NewPageTidy(s, total, s', o, p, f, flags);
  }

  lemma WordsGrow(s: State, s': State, f: nat)
    requires Fresh(s.node, f)
    requires Grows(s.mem[f := ZeroPage()], s.node, s.free - {f}, s'.mem, s'.node, s'.free)
    ensures WordsKept(s, s')
  {
    forall n, i: Index | n in s.node && UserWord(s.mem, s.node[n], i)
      ensures n in s'.node && s'.node[n] == s.node[n] && UserWord(s'.mem, s.node[n], i)
    {
      assert UserWord(s.mem[f := ZeroPage()], s.node[n], i);
    }
  }

  lemma NewPageIs(s: State, s': State, o: Owner, p: nat, f: nat, flags: Flags)
    requires f in s.free && f != 0 && Fresh(s.node, f) && SameLeaves(s.mem, s.node, s.mem[f := ZeroPage()], s.node)
    requires Grows(s.mem[f := ZeroPage()], s.node, s.free - {f}, s'.mem, s'.node, s'.free)
    requires LeafSet(s.mem[f := ZeroPage()], s.node, s'.mem, s'.node, o, PageVpn(p), Mapped(LeafPte(f, flags)))
    requires WordsKept(s, s') && flags.user && PageVpn(p).i4 < 256 && UserPath(s'.mem, s'.node, o, PageVpn(p))
    ensures NewPage(s, s', o, p, f, flags)
  {
    hide LeafAt, LeafSet, SameLeaves, PageVpn, WordsKept, UserPath;
    LeafSetAfterSame(s.mem, s.node, s.mem[f := ZeroPage()], s.node, s'.mem, s'.node, o, PageVpn(p),
        Mapped(LeafPte(f, flags)));
  }

  lemma NewPageZero(s: State, s': State, o: Owner, p: nat, f: nat, flags: Flags)
    requires NewPage(s, s', o, p, f, flags)
    ensures forall i: nat :: i < 0x1000 ==> Holds(s'.mem, f, i, 0)
  {
  }

  /** The leaf of the new page, and of any other. */
  lemma NewPageLeaf(s: State, s': State, o: Owner, p: nat, f: nat, flags: Flags, t: Owner, w: Vpn)
    requires NewPage(s, s', o, p, f, flags)
    ensures LeafIn(s', t, w) ==
            if w == PageVpn(p) && Via(t, w.i4) == Via(o, w.i4) then Mapped(LeafPte(f, flags)) else LeafIn(s, t, w)
  {
    hide LeafAt, PageVpn, LeafPte;
  }

  lemma NewPageExtends(s: State, s': State, o: Owner, p: nat, f: nat, flags: Flags)
    requires NewPage(s, s', o, p, f, flags)
    ensures Extends(s, s') && (Root(o) in s.node ==> Root(o) in s'.node)
  {
    assert NodesGrow(s.node, s'.node);
    hide NewPage, LeafAt, PageVpn, LeafPte;
    forall t, w ensures MeetsHuge(LeafIn(s', t, w)) ==> MeetsHuge(LeafIn(s, t, w)) {
      NewPageLeaf(s, s', o, p, f, flags, t, w);
    }
  }

  /** Every page mapped before keeps its leaf and its bytes. */
  lemma NewPageStays(s: State, total: nat, s': State, o: Owner, p: nat, f: nat, flags: Flags, t: Owner, w: Vpn)
    requires SoundState(s, total) && Tidy(s) && NewPage(s, s', o, p, f, flags) && !LeafIn(s, o, PageVpn(p)).Mapped?
    ensures PageStays(s, s', t, w)
  {
    if LeafIn(s, t, w).Mapped? {
      DataAt(s, t, w);
      TreeOf(s, total);
      SameVia(s, t, o, w);
      NewPageLeaf(s, s', o, p, f, flags, t, w);
      var g := LeafIn(s, t, w).e.frame;
      hide LeafAt, PageVpn, LeafPte, Tidy, SoundState, LeafSet;
      assert Fresh(s.node, g);
    }
  }

  /** A leaf depends only on whose tables lead to it. */
  lemma SameVia(s: State, t: Owner, o: Owner, w: Vpn)
    ensures Via(t, w.i4) == Via(o, w.i4) ==> LeafIn(s, t, w) == LeafIn(s, o, w)
  {
  }

  lemma NewPageKeeps(s: State, total: nat, s': State, o: Owner, p: nat, f: nat, flags: Flags)
    requires SoundState(s, total) && Tidy(s) && NewPage(s, s', o, p, f, flags) && !LeafIn(s, o, PageVpn(p)).Mapped?
    ensures PagesStay(s, s')
  {
    hide SoundState, NewPage, Tidy, LeafAt, PageVpn, PageStays;
    forall t, w ensures PageStays(s, s', t, w) { NewPageStays(s, total, s', o, p, f, flags, t, w); }
  }

  lemma NewPageTidy(s: State, total: nat, s': State, o: Owner, p: nat, f: nat, flags: Flags)
    requires SoundState(s, total) && Tidy(s) && NewPage(s, s', o, p, f, flags) && !LeafIn(s, o, PageVpn(p)).Mapped?
    ensures Tidy(s')
  {
    assert f in s.free && f !in s'.free && s'.free <= s.free && f != 0 && f in s'.mem && s'.mem[f] == ZeroPage();
    hide SoundState, NewPage, Tidy, LeafAt, PageVpn;
    forall t, w | LeafIn(s', t, w).Mapped? ensures NewOrOld(s, s', o, p, f, t, w) {
      NewPageLeaf(s, s', o, p, f, flags, t, w);
      if LeafIn(s, t, w).Mapped? {
        DataAt(s, t, w);
        NewPageStays(s, total, s', o, p, f, flags, t, w);
      }
    }
    forall t, w | LeafIn(s', t, w).Mapped? ensures DataFrame(s', LeafIn(s', t, w).e.frame) {
      assert NewOrOld(s, s', o, p, f, t, w);
    }
    assert MapsData(s');
    forall t, w, u, v | SameFrame(s', t, w, u, v) ensures w == v && Via(t, w.i4) == Via(u, v.i4) {
      assert NewOrOld(s, s', o, p, f, t, w) && NewOrOld(s, s', o, p, f, u, v);
      if LeafIn(s', t, w).e.frame != f { OncePlaced(s, t, w, u, v); }
    }
    NewPageOpen(s, s', o, p, f, flags);
    forall t, w | MeetsHuge(LeafIn(s', t, w)) ensures !LeafIn(s', t, w).e.user {
      NewPageLeaf(s, s', o, p, f, flags, t, w);
      ClosedAt(s, t, w);
    }
    TidyIs(s');
  }

  lemma TidyIs(s: State)
    requires MapsData(s) && MappedOnce(s) && Open(s) && Closed(s)
    ensures Tidy(s)
  {
  }

  /** The new page is open to every space that sees it, and the old ones stay open. */
  lemma NewPageOpen(s: State, s': State, o: Owner, p: nat, f: nat, flags: Flags)
    requires Tidy(s) && NewPage(s, s', o, p, f, flags)
    ensures Open(s')
  {
    assert NodesGrow(s.node, s'.node) && WordsKept(s, s') && flags.user && PageVpn(p).i4 < 256;
    assert UserPath(s'.mem, s'.node, o, PageVpn(p));
    hide NewPage, Tidy, LeafAt, PageVpn, OpenPage, OpenRoot, WordsKept, UserPath;
    forall d ensures OpenRoot(s', d) { RootStays(s, s', d); }
    forall t, w ensures OpenPage(s', t, w) {
      NewPageLeaf(s, s', o, p, f, flags, t, w);
      if w == PageVpn(p) && Via(t, w.i4) == Via(o, w.i4) {
        PathOpens(s', o, t, w, f, flags);
      } else {
        OpenKept(s, s', t, w);
      }
    }
  }

  lemma RootStays(s: State, s': State, d: nat)
    requires Tidy(s) && WordsKept(s, s') && (Root(User(d)) in s'.node ==> Root(User(d)) in s.node)
    ensures OpenRoot(s', d)
  {
    OpenAt(s, User(d), Vpn(0, 0, 0, 0));
    hide Tidy, UserWord;
  }

  lemma PathOpens(s: State, o: Owner, t: Owner, w: Vpn, f: nat, flags: Flags)
    requires UserPath(s.mem, s.node, o, w) && w.i4 < 256 && flags.user && Via(t, w.i4) == Via(o, w.i4)
    requires LeafIn(s, t, w) == Mapped(LeafPte(f, flags)) && forall d :: OpenRoot(s, d)
    ensures OpenPage(s, t, w)
  {
    hide LeafAt;
    if t.User? && t != o { assert w.i4 == 0 && OpenRoot(s, t.id); }
  }

  /** A mapped page is either the new one, behind frame f, or an old one, in another frame. */
  ghost predicate NewOrOld(s: State, s': State, o: Owner, p: nat, f: nat, t: Owner, w: Vpn)
    requires LeafIn(s', t, w).Mapped?
  {
    var g := LeafIn(s', t, w).e.frame;
    if w == PageVpn(p) && Via(t, w.i4) == Via(o, w.i4) then g == f && DataFrame(s', g)
    else g != f && LeafIn(s, t, w) == LeafIn(s', t, w) && DataFrame(s', g)
  }

  // ------------------------------------------------------------------- the stack

  const STACK_TOP: nat := 0x7FFF_FFFF_E000
  const STACK_PAGES: nat := 4
  const STACK_FLAGS := Flags(true, true, true)

  function StackPageNumber(k: nat): nat
    requires k < STACK_PAGES
  {
    (STACK_TOP - (k + 1) * 0x1000) / 0x1000
  }

  /** Page k below the top of the stack is mapped for the user, writable, not executable,
      and all zeros. */
  ghost predicate StackPage(s: State, o: Owner, k: nat)
    requires k < STACK_PAGES
  {
    var l := LeafIn(s, o, PageVpn(StackPageNumber(k)));
    l.Mapped? && l.e == LeafPte(l.e.frame, STACK_FLAGS) && forall i: nat :: i < 0x1000 ==> Holds(s.mem, l.e.frame, i, 0)
  }

  lemma StackLow(k: nat)
    requires k < STACK_PAGES
    ensures PageVpn(StackPageNumber(k)).i4 < 256
  {
  }

  lemma AddStackPage(s0: State, s: State, total: nat, s': State, o: Owner, i: nat, f: nat)
    requires i < STACK_PAGES && SoundState(s, total) && Tidy(s)
    requires NewPage(s, s', o, StackPageNumber(i), f, STACK_FLAGS) && !LeafIn(s, o, PageVpn(StackPageNumber(i))).Mapped?
    requires Root(o) in s0.node && Extends(s0, s) && PagesStay(s0, s)
    requires forall k: nat :: k < i ==> StackPage(s, o, k)
    ensures Root(o) in s'.node && Extends(s0, s') && PagesStay(s0, s')
    ensures forall k: nat :: k <= i ==> StackPage(s', o, k)
  {
    hide Extends, PagesStay, SoundState, NewPage, Tidy, LeafAt, VpnOf, PageVpn, LeafPte, StackPageNumber;
    var p := StackPageNumber(i);
    NewPageExtends(s, s', o, p, f, STACK_FLAGS);
    ExtendsOn(s0, s, s', o);
    NewPageKeeps(s, total, s', o, p, f, STACK_FLAGS);
    PagesStayOn(s0, s, s');
    NewPageZero(s, s', o, p, f, STACK_FLAGS);
    NewPageLeaf(s, s', o, p, f, STACK_FLAGS, o, PageVpn(p));
    FrameOf(f, STACK_FLAGS);
    forall k: nat | k < i ensures StackPage(s', o, k) {
      assert StackPage(s, o, k);
      NewPageStays(s, total, s', o, p, f, STACK_FLAGS, o, PageVpn(StackPageNumber(k)));
      var l := LeafIn(s, o, PageVpn(StackPageNumber(k)));
      forall j: nat | j < 0x1000 ensures Holds(s'.mem, l.e.frame, j, 0) { assert Holds(s.mem, l.e.frame, j, 0); }
    }
  }

  /** The user of space o reads 0 at address a, may write there, and may not execute it. */
  ghost predicate StackByte(s: State, o: Owner, a: nat) {
    && Root(o) in s.node && Reads(s, o, a, 0)
    && Granted(s.mem, s.node[Root(o)], VpnOf(a)) == Rights(true, true, true)
  }

  /** The four pages make 16 KiB below the top. */
  lemma StackBytes(s: State, total: nat, d: nat, a: nat)
    requires SoundState(s, total) && Tidy(s) && Root(User(d)) in s.node
    requires forall k: nat :: k < STACK_PAGES ==> StackPage(s, User(d), k)
    requires STACK_TOP - 0x4000 <= a < STACK_TOP
    ensures StackByte(s, User(d), a)
  {
    var k := (STACK_TOP - 1 - a) / 0x1000;
    assert StackPageNumber(k) == a / 0x1000 && StackPage(s, User(d), k);
    PageVpnOf(a);
    hide SoundState, Tidy, LeafAt, VpnOf, PageVpn, Granted, StackPageNumber;
    PageGrants(s, total, d, VpnOf(a));
    assert Holds(s.mem, LeafIn(s, User(d), VpnOf(a)).e.frame, a % 0x1000, 0);
  }

  lemma FrameOf(f: nat, flags: Flags)
    ensures LeafPte(f, flags).frame == f
  {
  }

  // -------------------------------------------------------------------- spaces

  /** The address spaces, and their root frames, are the same. */
  ghost predicate SameSpaces(node: map<Node, nat>, node': map<Node, nat>) {
    forall t :: SameSpace(node, node', t)
  }

  ghost predicate SameSpace(node: map<Node, nat>, node': map<Node, nat>, t: Owner) {
    (Root(t) in node' <==> Root(t) in node) && (Root(t) in node ==> node'[Root(t)] == node[Root(t)])
  }

  lemma RootNotZero(s: State, total: nat, d: nat)
    requires SoundState(s, total) && Root(User(d)) in s.node
    ensures s.node[Root(User(d))] != 0
  {
  }

  /** A new space disturbs no page and no byte. */
  lemma CreatedTidy(s: State, total: nat, s': State, d: nat, f: nat)
    requires Created(s.mem, s.node, s.free, s'.mem, s'.node, s'.free, d, f) && Tidy(s) && SoundState(s, total)
    ensures Tidy(s') && SameLeaves(s.mem, s.node, s'.mem, s'.node) && forall t, w :: PageStays(s, s', t, w)
    ensures Root(User(d)) !in s.node && s'.node == s.node[Root(User(d)) := f]
  {
    CreatedOpen(s, s', d, f);
    hide LeafAt, RootMade, Open, SoundState;
    TidyStays(s, s');
    forall t, w ensures PageStays(s, s', t, w) {
      SameAt(s.mem, s.node, s'.mem, s'.node, t, w);
      if LeafIn(s, t, w).Mapped? { DataAt(s, t, w); }
    }
  }

  /** A new space is open from the start. */
  lemma CreatedOpen(s: State, s': State, d: nat, f: nat)
    requires Created(s.mem, s.node, s.free, s'.mem, s'.node, s'.free, d, f) && Tidy(s) && Tree(s.mem, s.node)
    requires forall n :: n in s.node ==> s.node[n] !in s.free
    ensures Open(s')
  {
    assert WordsKept(s, s');
    assert OpenRoot(s', d) && forall t :: t != User(d) && Root(t) in s'.node ==> Root(t) in s.node;
    assert SameLeaves(s.mem, s.node, s'.mem, s'.node) && Root(User(d)) !in s.node;
    hide Created, Tidy, LeafAt, OpenPage, OpenRoot, WordsKept, SameLeaves, Tree;
    forall x ensures OpenRoot(s', x) {
      if x != d { RootStays(s, s', x); }
    }
    forall t, w ensures OpenPage(s', t, w) {
      SameAt(s.mem, s.node, s'.mem, s'.node, t, w);
      if t != User(d) { OpenKept(s, s', t, w); } else { NewOpens(s, s', d, w); }
    }
  }

  lemma NewOpens(s: State, s': State, d: nat, w: Vpn)
    requires Tidy(s) && Tree(s.mem, s.node) && Root(User(d)) !in s.node && WordsKept(s, s')
    requires LeafIn(s', User(d), w) == LeafIn(s, User(d), w) && OpenRoot(s', d)
    ensures OpenPage(s', User(d), w)
  {
    FreshSpace(s.mem, s.node, d, w);
    OpenAt(s, User(d), w);
    hide Tidy, Tree, LeafAt;
  }

  /** The state after space d is destroyed. */
  ghost function Dropped(s: State, d: nat): State
    requires Root(User(d)) in s.node
  {
    State(s.mem, Without(s.node, User(d)), s.free + SpaceFrames(s.node, d))
  }

  /** A page seen after a space was dropped was seen before. */
  lemma LeafWithout(s: State, d: nat, o: Owner, v: Vpn)
    requires Tree(s.mem, s.node)
    ensures var l := LeafAt(s.mem, Without(s.node, User(d)), o, v);
            && l in {LeafIn(s, o, v), NotMapped} && (o != User(d) || SharedSlot(v.i4) ==> l == LeafIn(s, o, v))
  {
    RemoveSpace(s.mem, s.node, d);
    SameVia(s, o, Kernel, v);
    SameVia(s.(node := Without(s.node, User(d))), o, Kernel, v);
  }

  /** Dropping a space disturbs no page that another one maps. */
  lemma DroppedTidy(s: State, total: nat, d: nat)
    requires SoundState(s, total) && Tidy(s) && Root(User(d)) in s.node
    ensures Tidy(Dropped(s, d)) && NoNewHuge(s, Dropped(s, d))
  {
    var s' := Dropped(s, d);
    TreeOf(s, total);
    assert SpaceOk(s.mem, s.node, s.free, total, d);
    forall t, w ensures LeafIn(s', t, w) in {LeafIn(s, t, w), NotMapped} { LeafWithout(s, d, t, w); }
    DroppedOpen(s, d);
    hide LeafAt, Sound, Without, Open;
    forall t, w | LeafIn(s', t, w).Mapped? ensures DataFrame(s', LeafIn(s', t, w).e.frame) {
      DataAt(s, t, w);
    }
    forall t, w, u, v | SameFrame(s', t, w, u, v) ensures w == v && Via(t, w.i4) == Via(u, v.i4) {
      OncePlaced(s, t, w, u, v);
    }
    forall t, w | MeetsHuge(LeafIn(s', t, w)) ensures !LeafIn(s', t, w).e.user { ClosedAt(s, t, w); }
  }

  lemma DroppedOpen(s: State, d: nat)
    requires Tree(s.mem, s.node) && Tidy(s) && Root(User(d)) in s.node
    ensures Open(Dropped(s, d))
  {
    var s' := Dropped(s, d);
    hide Tidy, LeafAt, Tree;
    forall t, w ensures OpenPage(s', t, w) {
      LeafWithout(s, d, t, w);
      OpenAt(s, t, w);
      if Via(t, w.i4) == User(d) { NothingLeft(s, d, t, w); }
    }
    forall x ensures OpenRoot(s', x) { OpenAt(s, User(x), Vpn(0, 0, 0, 0)); }
  }

  lemma NothingLeft(s: State, d: nat, t: Owner, w: Vpn)
    requires Via(t, w.i4) == User(d)
    ensures LeafAt(s.mem, Without(s.node, User(d)), t, w).NotMapped?
  {
  }

  /** After a space was made and tables were added to it, dropping it leaves the spaces there were. */
  lemma SpaceAdded(s0: State, s1: State, s: State, d: nat, f: nat)
    requires Tree(s.mem, s.node) && SameLeaves(s0.mem, s0.node, s1.mem, s1.node)
    requires Root(User(d)) !in s0.node && s1.node == s0.node[Root(User(d)) := f] && Extends(s1, s)
    ensures Root(User(d)) in s.node && s.node[Root(User(d))] == f && SameSpaces(s0.node, Without(s.node, User(d)))
    ensures forall t :: t != User(d) ==> SameSpace(s0.node, s.node, t)
    ensures NoNewHuge(s0, s)
  {
    hide LeafAt, SameLeaves, Tree;
    forall o, v ensures MeetsHuge(LeafIn(s, o, v)) ==> MeetsHuge(LeafIn(s0, o, v)) {
      SameAt(s0.mem, s0.node, s1.mem, s1.node, o, v);
    }
  }
}
