/** A small state that kernel/vmm.c and kernel/process.c can be in: the kernel and one user
    space with one private page. It is where the claims about huge pages fail. */
module Samples {
  import opened Words
  import opened PageTables
  import opened Unmapping
  import opened Vmm
  import opened UserPages
  import Paging
  import V = VmmRuns

  const ROOT: nat := 1
  const SPACE: nat := 7
  const USER_ROOT: nat := 6

  /** The frame at 2 MiB holds data, the one at 4 MiB a page table of the user space. */
  const DATA: nat := 512
  const USER_PT: nat := 1024
  const USER_PAGE: nat := 10

  /** Word i of the table in frame f: an identity map that reaches the page at 2 MiB, a higher
      half that reaches the page at 4 MiB, and the tables of the user space. */
  function WordAt(f: nat, i: Index): Pte {
    match (f, i)
    case (1, 0) => Paging.ToTable(2)
    case (1, 511) => Paging.ToTable(4)
    case (2, 0) => Paging.ToTable(3)
    case (3, 1) => Paging.IdentityWord(0, 1, 0x40_0000)
    case (4, 510) => Paging.ToTable(5)
    case (5, 2) => Paging.HighWord(2)
    case (6, 0) => Paging.ToTable(2).(user := true)
    case (6, 511) => Paging.ToTable(4)
    case (6, 1) => Paging.ToTable(8).(user := true)
    case (8, 0) => Paging.ToTable(9).(user := true)
    case (9, 0) => Paging.ToTable(1024).(user := true)
    case (1024, 0) => LeafPte(10, Flags(true, true, true))
    case _ => ABSENT
  }

  function TableAt(f: nat): Page {
    Table(seq(512, i requires 0 <= i < 512 => WordAt(f, i)))
  }

  /** The first bytes of the data are 01 10 00 00 00 00 00 00. */
  function Data(): seq<Byte> {
    seq(4096, i => if i == 0 then 1 else if i == 1 then 16 else 0)
  }

  function Mem(): Memory {
    (map f: nat | f in {1, 2, 3, 4, 5, 6, 8, 9, USER_PT} :: TableAt(f))
    + map[SPACE := Space(USER_ROOT), USER_PAGE := ZeroPage(), DATA := Bytes(Data())]
  }

  function Places(): map<Node, nat> {
    map[Root(Kernel) := ROOT, Pdpt(Kernel, 0) := 2, Pd(Kernel, 0, 0) := 3,
        Pdpt(Kernel, 511) := 4, Pd(Kernel, 511, 510) := 5,
        Root(User(SPACE)) := USER_ROOT, Pdpt(User(SPACE), 1) := 8, Pd(User(SPACE), 1, 0) := 9,
        Pt(User(SPACE), 1, 0, 0) := USER_PT]
  }

  function Now(): State { State(Mem(), Places(), {}) }

  const TOTAL: nat := 2048

  function PlaceOf(n: Node): nat {
    match n
    case Root(o) => if o == Kernel then ROOT else if o == User(SPACE) then USER_ROOT else 0
    case Pdpt(o, a) =>
      if o == Kernel then if a == 0 then 2 else if a == 511 then 4 else 0
      else if o == User(SPACE) && a == 1 then 8 else 0
    case Pd(o, a, b) =>
      if o == Kernel then if a == 0 && b == 0 then 3 else if a == 511 && b == 510 then 5 else 0
      else if o == User(SPACE) && a == 1 && b == 0 then 9 else 0
    case Pt(o, a, b, c) => if o == User(SPACE) && a == 1 && b == 0 && c == 0 then USER_PT else 0
  }

  lemma InPlaces(n: Node)
    ensures n in Places() <==> PlaceOf(n) != 0
    ensures n in Places() ==> Places()[n] == PlaceOf(n)
  {
  }

  lemma WordsThere(n: Node, i: Index)
    requires n in Places()
    ensures IsTable(Mem(), Places()[n]) && Entry(Mem(), Places()[n], i) == WordAt(PlaceOf(n), i)
  {
    InPlaces(n);
    hide WordAt, Places;
  }

  /** The words of a table lead to the tables below it. */
  lemma WordsLead(n: Node, i: Index)
    requires PlaceOf(n) != 0 && !n.Pt?
    ensures var e, c := WordAt(PlaceOf(n), i), PlaceOf(Child(n, i));
            && (c != 0 <==> e.present && !e.huge) && (c != 0 ==> e.frame == c && e.write && !e.nx)
            && (e.huge ==> e.present && n.Pd? && n.o.Kernel?)
  {
    match n
    case Root(o) => {}
    case Pdpt(o, a) => {}
    case Pd(o, a, b) => {}
  }

  lemma LinkedThere(n: Node, i: Index)
    requires n in Places() && !n.Pt?
    ensures Linked(Mem(), Places(), n, i)
  {
    WordsThere(n, i);
    InPlaces(n);
    InPlaces(Child(n, i));
    WordsLead(n, i);
    hide Mem, Entry, Places, WordAt, PlaceOf;
  }

  lemma PlacesApart(m: Node, n: Node)
    requires PlaceOf(m) == PlaceOf(n) != 0
    ensures m == n
  {
  }

  lemma ParentThere(n: Node)
    requires n in Places()
    ensures Places()[n] < TOTAL && (!n.Root? ==> Parent(n) in Places() && Via(n.o, n.a) == n.o)
  {
    InPlaces(n);
    if !n.Root? { InPlaces(Parent(n)); }
    hide Places;
  }

  lemma IsTree()
    ensures Tree(Mem(), Places())
  {
    var mem, node := Mem(), Places();
    hide Mem, Places, Linked, IsTable;
    InPlaces(Root(Kernel));
    InPlaces(Pdpt(Kernel, 0));
    InPlaces(Pdpt(Kernel, 511));
    forall m, n | m in node && n in node && node[m] == node[n] ensures m == n {
      InPlaces(m);
      InPlaces(n);
      PlacesApart(m, n);
    }
    forall n | n in node ensures IsTable(mem, node[n]) { WordsThere(n, 0); }
    forall n, i: Index | n in node && !n.Pt? ensures Linked(mem, node, n, i) { LinkedThere(n, i); }
    forall n | n in node && !n.Root? ensures Parent(n) in node && Via(n.o, n.a) == n.o { ParentThere(n); }
  }

  lemma RecordThere()
    ensures SPACE in Mem() && Mem()[SPACE] == Space(USER_ROOT)
    ensures USER_PAGE in Mem() && Mem()[USER_PAGE] == ZeroPage() && DATA in Mem() && Mem()[DATA] == Bytes(Data())
  {
    hide TableAt, Data, ZeroPage;
  }

  lemma IsSound()
    ensures SoundState(Now(), TOTAL) && Root(User(SPACE)) in Places()
  {
    IsTree();
    RecordThere();
    hide Tree, Mem, Places;
    forall n | n in Places() ensures 0 < Places()[n] < TOTAL {
      InPlaces(n);
      ParentThere(n);
    }
    InPlaces(Root(User(SPACE)));
    forall d | Root(User(d)) in Places() ensures SpaceOk(Mem(), Places(), {}, TOTAL, d) { InPlaces(Root(User(d))); }
  }

  /** The page of the user space, 512 GiB up, and what is mapped besides. */
  function UserVpn(): Vpn { Vpn(1, 0, 0, 0) }

  function IdentityVpn(): Vpn { Vpn(0, 0, 1, 0) }

  function HighVpn(): Vpn { Vpn(511, 510, 2, 0) }

  lemma LeavesThere(t: Owner, w: Vpn)
    ensures LeafIn(Now(), t, w).Mapped? ==>
              t == User(SPACE) && w == UserVpn() && LeafIn(Now(), t, w).e.frame == USER_PAGE
    ensures LeafIn(Now(), User(SPACE), UserVpn()) == Mapped(WordAt(USER_PT, 0))
    ensures MeetsHuge(LeafIn(Now(), t, w)) ==> !LeafIn(Now(), t, w).e.user
    ensures LeafIn(Now(), t, IdentityVpn()) == Huge2M(Paging.IdentityWord(0, 1, 0x40_0000))
    ensures LeafIn(Now(), t, HighVpn()) == Huge2M(Paging.HighWord(2))
  {
    PtThere(t, w);
    PtThere(User(SPACE), UserVpn());
    PtThere(t, IdentityVpn());
    PtThere(t, HighVpn());
    hide Mem, Places, Entry;
    InPlaces(Pd(Kernel, 0, 0));
    InPlaces(Pd(Kernel, 511, 510));
    WordsThere(Pd(Kernel, 0, 0), 1);
    WordsThere(Pd(Kernel, 511, 510), 2);
    if PdOf(t, w) in Places() {
      InPlaces(PdOf(t, w));
      WordsThere(PdOf(t, w), w.i2);
    }
  }

  lemma PtThere(t: Owner, w: Vpn)
    ensures PtOf(t, w) in Places() <==> t == User(SPACE) && w.i4 == 1 && w.i3 == 0 && w.i2 == 0
    ensures PtOf(t, w) in Places() ==>
              Places()[PtOf(t, w)] == USER_PT && Entry(Mem(), USER_PT, w.i1) == WordAt(USER_PT, w.i1)
  {
    InPlaces(PtOf(t, w));
    hide Mem, Places, Entry;
    if PtOf(t, w) in Places() { WordsThere(PtOf(t, w), w.i1); }
  }

  /** The first word of the data is present and names frame 1. */
  lemma DataWord()
    ensures Entry(Mem(), DATA, 0).present && Entry(Mem(), DATA, 0).frame == 1
  {
    RecordThere();
    hide Mem, WordIn;
    FirstWord(Data());
  }

  lemma FirstWord(data: seq<Byte>)
    requires |data| == 4096 && data[0] == 1 && data[1] == 16 && forall i :: 2 <= i < 8 ==> data[i] == 0
    ensures WordIn(data, 0).present && WordIn(data, 0).frame == 1
  {
  }

  /** The words that lead to the user's page admit users. */
  lemma PathThere()
    ensures var o := User(SPACE);
            && Root(o) in Places() && Pdpt(o, 1) in Places() && Pd(o, 1, 0) in Places()
            && UserWord(Mem(), Places()[Root(o)], 0) && UserWord(Mem(), Places()[Root(o)], 1)
            && UserWord(Mem(), Places()[Pdpt(o, 1)], 0) && UserWord(Mem(), Places()[Pd(o, 1, 0)], 0)
  {
    var o := User(SPACE);
    InPlaces(Root(o));
    InPlaces(Pdpt(o, 1));
    InPlaces(Pd(o, 1, 0));
    hide Mem, Places, Entry;
    WordsThere(Root(o), 0);
    WordsThere(Root(o), 1);
    WordsThere(Pdpt(o, 1), 0);
    WordsThere(Pd(o, 1, 0), 0);
  }

  lemma IsTidy()
    ensures Tidy(Now())
  {
    RecordThere();
    hide Mem, Places, LeafAt;
    forall t, w | LeafIn(Now(), t, w).Mapped? ensures DataFrame(Now(), LeafIn(Now(), t, w).e.frame) {
      LeavesThere(t, w);
    }
    forall t, w, u, v | SameFrame(Now(), t, w, u, v) ensures w == v && Via(t, w.i4) == Via(u, v.i4) {
      LeavesThere(t, w);
      LeavesThere(u, v);
    }
    forall t, w | MeetsHuge(LeafIn(Now(), t, w)) ensures !LeafIn(Now(), t, w).e.user { LeavesThere(t, w); }
    forall t, w ensures OpenPage(Now(), t, w) {
      LeavesThere(t, w);
      PathThere();
    }
    forall d ensures OpenRoot(Now(), d) {
      InPlaces(Root(User(d)));
      PathThere();
    }
  }

  /** vmm_unmap of a higher-half address, in the kernel's space, takes the private page of
      the user space away: a run of one call that names neither the page nor the space. The
      higher-half page stays. */
  lemma UnmapElsewhere()
    ensures var v, w, op := HighVpn(), UserVpn(), V.Unmap(Kernel, HighVpn());
            var s := V.Tables(Mem(), Places());
            var s' := V.Tables(UnmapStore(Mem(), ROOT, v), Places());
            && Sound(s.mem, s.node, {}, TOTAL) && Sound(s'.mem, s'.node, {}, TOTAL)
            && V.Run([s, s'], [op]) && !V.Touches(op, User(SPACE), w) && !SharedSlot(w.i4)
            && LeafAt(s'.mem, s'.node, Kernel, v) == LeafAt(s.mem, s.node, Kernel, v)
            && LeafAt(s.mem, s.node, User(SPACE), w).Mapped? && LeafAt(s'.mem, s'.node, User(SPACE), w) == NotMapped
  {
    hide *;
    var mem, node, v, w := Mem(), Places(), HighVpn(), UserVpn();
    IsSound();
    SoundIs();
    HitsThere();
    UnmapHits(mem, node, {}, TOTAL, Kernel, v, User(SPACE), w);
    OneCall(V.Tables(mem, node), V.Unmap(Kernel, v), V.Tables(UnmapStore(mem, ROOT, v), node));
    HitsOnly(UnmapStore(mem, ROOT, v));
  }

  lemma SoundIs()
    requires SoundState(Now(), TOTAL)
    ensures Sound(Mem(), Places(), {}, TOTAL)
  {
    hide Sound, Mem, Places;
  }

  /** What UnmapHits asks for. */
  lemma HitsThere()
    ensures var v, w := HighVpn(), UserVpn();
            && Root(Kernel) in Places() && Places()[Root(Kernel)] == ROOT && v.i1 == w.i1
            && PtOf(User(SPACE), w) in Places()
            && var l := LeafAt(Mem(), Places(), Kernel, v);
               l.Huge2M? && !l.e.nx && l.e.frame == Places()[PtOf(User(SPACE), w)]
  {
    LeavesThere(Kernel, HighVpn());
    InPlaces(Root(Kernel));
    PtThere(User(SPACE), UserVpn());
    hide Mem, Places, LeafAt;
  }

  lemma OneCall(s: V.Tables, op: V.Op, s': V.Tables)
    requires V.Step(s, op, s')
    ensures V.Run([s, s'], [op])
  {
    hide Tree;
  }

  lemma HitsOnly(mem': Memory)
    requires LeafSet(Mem(), Places(), mem', Places(), User(SPACE), UserVpn(), NotMapped)
    ensures var v, w := HighVpn(), UserVpn();
            && !V.Touches(V.Unmap(Kernel, v), User(SPACE), w) && !SharedSlot(w.i4)
            && LeafAt(mem', Places(), Kernel, v) == LeafAt(Mem(), Places(), Kernel, v)
            && LeafAt(Mem(), Places(), User(SPACE), w).Mapped? && LeafAt(mem', Places(), User(SPACE), w) == NotMapped
  {
    LeavesThere(User(SPACE), UserVpn());
    hide Mem, Places, LeafAt;
  }

  /** vmm_unmap of an identity address faults. */
  lemma UnmapFaults()
    ensures UnmapTarget(Mem(), ROOT, IdentityVpn()).Fault?
  {
    IsSound();
    LeavesThere(Kernel, IdentityVpn());
    InPlaces(Root(Kernel));
    hide Mem, Places;
    TargetIs(Mem(), Places(), Kernel, IdentityVpn());
  }
}
