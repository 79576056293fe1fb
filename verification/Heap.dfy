/** kernel/kmalloc.c as a value: the block list, first fit with splitting, and the
    single coalescing pass of kfree, with what every run of calls keeps. */
module Heap {
  import opened Words

  const HEADER: nat := 32
  const ALIGN: nat := 16

  /** A list node: its address, the size of its payload, and whether it is free. */
  datatype Block = Block(addr: nat, size: nat, free: bool)

  /** align_up(value, KMALLOC_ALIGN) in 64 bits. */
  function AlignBlock(value: nat): nat {
    (value + ALIGN - 1) % U64 / ALIGN * ALIGN
  }

  /** align_up(value, PAGE_SIZE) in 64 bits. */
  function AlignPage(value: nat): nat {
    (value + PAGE_SIZE - 1) % U64 / PAGE_SIZE * PAGE_SIZE
  }

  /** The bytes expand_heap asks the frame allocator for. */
  function ExtentBytes(size: nat): nat {
    AlignPage((size + HEADER) % U64)
  }

  /** What split_block and block->free = 0 make of a block. */
  function Parts(b: Block, size: nat): seq<Block>
    requires size <= b.size
  {
    if b.size - size <= HEADER + ALIGN then [b.(free := false)]
    else [Block(b.addr, size, false), Block(b.addr + HEADER + size, b.size - size - HEADER, true)]
  }

  function Replace(s: seq<Block>, i: nat, m: seq<Block>): seq<Block>
    requires i < |s|
  {
    s[..i] + m + s[i + 1..]
  }

  function Take(s: seq<Block>, i: nat, size: nat): seq<Block>
    requires i < |s| && size <= s[i].size
  {
    Replace(s, i, Parts(s[i], size))
  }

  predicate Fits(b: Block, size: nat) { b.free && b.size >= size }

  /** The first block that fits, or |s|. */
  function FirstFit(s: seq<Block>, size: nat): (i: nat)
    ensures i <= |s| && (i < |s| ==> Fits(s[i], size)) && forall j :: 0 <= j < i ==> !Fits(s[j], size)
  {
    if s == [] then 0 else if Fits(s[0], size) then 0 else
    var r := FirstFit(s[1..], size);
    assert forall j :: 1 <= j < |s| ==> s[j] == s[1..][j - 1];
    r + 1
  }

  /** The request stays below 2^64 through both roundings. */
  predicate NoWrap(request: nat) {
    (request + ALIGN - 1) / ALIGN * ALIGN + HEADER + PAGE_SIZE - 1 < U64
  }

  /** The request does not round up to the one size, 2^64 - 16, whose header wraps to a
      whole page that is too small for it. */
  predicate Sane(request: nat) {
    AlignBlock(request) + ALIGN != U64
  }

  /** The extent kmalloc would fetch holds the request and its header exactly for the
      requests whose arithmetic does not wrap. */
  lemma ExtentHoldsIff(request: nat)
    requires request < U64
    ensures ExtentBytes(AlignBlock(request)) >= HEADER + request <==> NoWrap(request)
    ensures NoWrap(request) ==> Sane(request) && request <= AlignBlock(request) < request + ALIGN
    ensures NoWrap(request) ==> ExtentBytes(AlignBlock(request)) < HEADER + request + ALIGN + PAGE_SIZE
  {
    BlockRounding(request);
    var size := AlignBlock(request);
    hide AlignBlock;
    if size + HEADER < U64 {
      PageRounding(size + HEADER);
    } else {
      PageRounding(size + HEADER - U64);
    }
  }

  /** Among the sizes that wrap, most make expand_heap ask for no page at all, so that
      kmalloc fails cleanly; exactly one does not. */
  lemma ExtentSaneIff(request: nat)
    requires request < U64
    ensures var size := AlignBlock(request);
            Sane(request) <==> ExtentBytes(size) == 0 || HEADER + size <= ExtentBytes(size)
  {
    BlockRounding(request);
    var size := AlignBlock(request);
    hide AlignBlock;
    if size + HEADER < U64 {
      PageRounding(size + HEADER);
    } else {
      assert size == U64 - ALIGN || size == U64 - HEADER;
      PageRounding(size + HEADER - U64);
    }
  }

  lemma BlockRounding(x: nat)
    requires x < U64
    ensures if x + ALIGN - 1 < U64
            then AlignBlock(x) == (x + ALIGN - 1) / ALIGN * ALIGN && x <= AlignBlock(x) < x + ALIGN
            else AlignBlock(x) == 0
    ensures AlignBlock(x) % ALIGN == 0 && AlignBlock(x) < U64
  {
  }

  lemma PageRounding(x: nat)
    requires x < U64
    ensures if x + PAGE_SIZE - 1 < U64 then x <= AlignPage(x) < x + PAGE_SIZE else AlignPage(x) == 0
    ensures AlignPage(x) % PAGE_SIZE == 0
  {
  }

  /** The inputs behind the two conditions: one request gets a page for a size of almost
      2^64, another is rounded up to size 0. */
  lemma WrappedSizes()
    ensures AlignBlock(U64 - 16) == U64 - 16 && ExtentBytes(U64 - 16) == PAGE_SIZE && !Sane(U64 - 16)
    ensures AlignBlock(U64 - 1) == 0 && Sane(U64 - 1) && !NoWrap(U64 - 1)
  {
  }

  /** kmalloc on the list; extent is where pmm_alloc_pages would put a new extent, 0 if
      it would fail. The second part is the index of the block handed out, |s| + 1 for none. */
  function Malloc(s: seq<Block>, request: nat, extent: nat): (seq<Block>, nat)
    requires request < U64 && Sane(request)
  {
    var size := AlignBlock(request);
    var i := FirstFit(s, size);
    if request == 0 then (s, |s| + 1)
    else if i < |s| then (Take(s, i, size), i)
    else if extent == 0 || ExtentBytes(size) == 0 then (s, |s| + 1)
    else
      ExtentSaneIff(request);
      (Take(s + [NewBlock(extent, size)], |s|, size), |s|)
  }

  /** The block that a new extent starts out as. */
  function NewBlock(extent: nat, size: nat): Block {
    Block(extent, if ExtentBytes(size) >= HEADER then ExtentBytes(size) - HEADER else 0, true)
  }

  /** The bytes a kmalloc call takes from the frame allocator. */
  function Fetched(s: seq<Block>, request: nat, extent: nat): nat {
    if request == 0 || FirstFit(s, AlignBlock(request)) < |s| || extent == 0 then 0
    else ExtentBytes(AlignBlock(request))
  }

  function Merge(a: Block, b: Block): Block {
    Block(a.addr, a.size + HEADER + b.size, true)
  }

  /** The single pass of coalesce: after a merge it moves on without looking back. */
  function Coalesce(s: seq<Block>): seq<Block> {
    if |s| < 2 then s
    else if s[0].free && s[1].free then [Merge(s[0], s[1])] + Coalesce(s[2..])
    else [s[0]] + Coalesce(s[1..])
  }

  /** The list when kfree has set the free flag of the block at index i. */
  function Freed(s: seq<Block>, i: nat): seq<Block>
    requires i < |s|
  {
    Replace(s, i, [s[i].(free := true)])
  }

  /** kfree of the block at index i. */
  function Free(s: seq<Block>, i: nat): seq<Block>
    requires i < |s|
  {
    Coalesce(Freed(s, i))
  }

  /** The block at an address, |s| if there is none. */
  function IndexOf(s: seq<Block>, addr: nat): (i: nat)
    ensures i <= |s| && (i < |s| ==> s[i].addr == addr)
  {
    if s == [] || s[0].addr == addr then 0 else 1 + IndexOf(s[1..], addr)
  }

  /** What kmalloc returns. */
  function Pointer(s: seq<Block>, request: nat, extent: nat): nat
    requires request < U64 && Sane(request)
  {
    var (t, i) := Malloc(s, request, extent);
    if i < |t| then t[i].addr + HEADER else 0
  }

  // ------------------------------------------------------------- free neighbours

  function Joint(a: Block, b: Block): nat { if a.free && b.free then 1 else 0 }

  /** The number of list-adjacent pairs of free blocks. */
  function Pairs(s: seq<Block>): nat {
    if |s| < 2 then 0 else Joint(s[0], s[1]) + Pairs(s[1..])
  }

  lemma {:induction false} PairsConcat(s: seq<Block>, t: seq<Block>)
    requires s != [] && t != []
    ensures Pairs(s + t) == Pairs(s) + Joint(s[|s| - 1], t[0]) + Pairs(t)
  {
    if |s| > 1 {
      PairsConcat(s[1..], t);
      assert (s + t)[1..] == s[1..] + t;
    } else {
      assert (s + t)[1..] == t;
    }
  }

  lemma CoalesceHead(s: seq<Block>)
    requires s != []
    ensures Coalesce(s) != [] && Coalesce(s)[0].free == s[0].free && Coalesce(s)[0].addr == s[0].addr
  {
  }

  /** One pass at least halves the free pairs. */
  lemma {:induction false} CoalesceHalves(s: seq<Block>)
    ensures 2 * Pairs(Coalesce(s)) <= Pairs(s)
  {
    if |s| < 2 {
    } else if s[0].free && s[1].free {
      var t := s[2..];
      assert s[1..][1..] == t;
      CoalesceHalves(t);
      if t != [] {
        CoalesceHead(t);
        PairsConcat([Merge(s[0], s[1])], Coalesce(t));
      }
    } else {
      CoalesceHalves(s[1..]);
      CoalesceHead(s[1..]);
      PairsConcat([s[0]], Coalesce(s[1..]));
    }
  }

  /** A run of k free blocks becomes ceil(k / 2) blocks. */
  lemma {:induction false} CoalesceRun(s: seq<Block>)
    requires forall i :: 0 <= i < |s| ==> s[i].free
    ensures |Coalesce(s)| == (|s| + 1) / 2
  {
    if |s| >= 2 { CoalesceRun(s[2..]); }
  }

  /** Pairs around position i. */
  lemma PairsAt(s: seq<Block>, i: nat, m: seq<Block>)
    requires i < |s| && m != []
    ensures Pairs(Replace(s, i, m))
            == (if i > 0 then Pairs(s[..i]) + Joint(s[i - 1], m[0]) else 0) + Pairs(m)
               + (if i + 1 < |s| then Joint(m[|m| - 1], s[i + 1]) + Pairs(s[i + 1..]) else 0)
  {
    var l, r := s[..i], s[i + 1..];
    if i > 0 { PairsConcat(l, m); } else { assert l + m == m; }
    if i + 1 < |s| { PairsConcat(l + m, r); } else { assert l + m + r == l + m; }
  }

  lemma ReplaceSelf(s: seq<Block>, i: nat)
    requires i < |s|
    ensures Replace(s, i, [s[i]]) == s
  {
  }

  lemma FreeAddsTwo(s: seq<Block>, i: nat)
    requires i < |s|
    ensures Pairs(Freed(s, i)) <= Pairs(s) + 2
  {
    ReplaceSelf(s, i);
    PairsAt(s, i, [s[i]]);
    PairsAt(s, i, [s[i].(free := true)]);
  }

  lemma PartsPairs(b: Block, size: nat)
    requires size <= b.size
    ensures var m := Parts(b, size); m != [] && !m[0].free && Pairs(m) == 0
  {
  }

  /** Taking a free block adds no pair. */
  lemma TakeAddsNone(s: seq<Block>, i: nat, size: nat)
    requires i < |s| && s[i].free && size <= s[i].size
    ensures Pairs(Take(s, i, size)) <= Pairs(s)
  {
    ReplaceSelf(s, i);
    PairsAt(s, i, [s[i]]);
    PartsPairs(s[i], size);
    PairsAt(s, i, Parts(s[i], size));
  }

  /** A block appended by expand_heap is taken at once, so it adds no pair either. */
  lemma TakeLastAddsNone(s: seq<Block>, b: Block, size: nat)
    requires size <= b.size
    ensures Pairs(Take(s + [b], |s|, size)) == Pairs(s)
  {
    PartsPairs(b, size);
    PairsAt(s + [b], |s|, Parts(b, size));
    assert (s + [b])[..|s|] == s;
  }

  // -------------------------------------------------------------- conservation

  /** Payload and header bytes of all blocks. */
  function Total(s: seq<Block>): nat {
    if s == [] then 0 else HEADER + s[0].size + Total(s[1..])
  }

  lemma {:induction false} TotalConcat(s: seq<Block>, t: seq<Block>)
    ensures Total(s + t) == Total(s) + Total(t)
  {
    if s == [] {
      assert s + t == t;
    } else {
      TotalConcat(s[1..], t);
      assert (s + t)[1..] == s[1..] + t;
    }
  }

  lemma {:induction false} TotalCoalesce(s: seq<Block>)
    ensures Total(Coalesce(s)) == Total(s)
  {
    if |s| < 2 {
    } else if s[0].free && s[1].free {
      TotalCoalesce(s[2..]);
      assert s[1..][1..] == s[2..];
    } else {
      TotalCoalesce(s[1..]);
    }
  }

  lemma TotalReplace(s: seq<Block>, i: nat, m: seq<Block>)
    requires i < |s|
    ensures Total(Replace(s, i, m)) == Total(s) - HEADER - s[i].size + Total(m)
  {
    TotalConcat(s[..i], m);
    TotalConcat(s[..i] + m, s[i + 1..]);
    TotalConcat(s[..i], s[i..]);
    assert s[..i] + s[i..] == s;
    assert s[i..][1..] == s[i + 1..];
  }

  lemma PartsTotal(b: Block, size: nat)
    requires size <= b.size
    ensures Total(Parts(b, size)) == HEADER + b.size
  {
    var m := Parts(b, size);
    if |m| == 2 { TotalConcat([m[0]], [m[1]]); assert m == [m[0]] + [m[1]]; }
  }

  // ------------------------------------------------------------------ live blocks

  /** The blocks in use, in list order. */
  function Live(s: seq<Block>): seq<Block> {
    if s == [] then [] else if s[0].free then Live(s[1..]) else [s[0]] + Live(s[1..])
  }

  lemma {:induction false} LiveConcat(s: seq<Block>, t: seq<Block>)
    ensures Live(s + t) == Live(s) + Live(t)
  {
    if s == [] {
      assert s + t == t;
    } else {
      LiveConcat(s[1..], t);
      assert (s + t)[1..] == s[1..] + t;
      assert [s[0]] + (Live(s[1..]) + Live(t)) == [s[0]] + Live(s[1..]) + Live(t);
    }
  }

  /** Coalescing touches no block in use. */
  lemma {:induction false} LiveCoalesce(s: seq<Block>)
    ensures Live(Coalesce(s)) == Live(s)
  {
    if |s| < 2 {
    } else if s[0].free && s[1].free {
      LiveCoalesce(s[2..]);
      assert s[1..][1..] == s[2..];
    } else {
      LiveCoalesce(s[1..]);
    }
  }

  lemma LiveReplace(s: seq<Block>, i: nat, m: seq<Block>)
    requires i < |s|
    ensures Live(Replace(s, i, m)) == Live(s[..i]) + Live(m) + Live(s[i + 1..])
  {
    LiveConcat(s[..i], m);
    LiveConcat(s[..i] + m, s[i + 1..]);
  }

  /** A taken block goes live with the size asked for, or with the slack that was too
      small to split off; the other live blocks stay as they are. */
  lemma LiveTake(s: seq<Block>, i: nat, size: nat)
    requires i < |s| && s[i].free && size <= s[i].size
    ensures var b := Parts(s[i], size)[0];
            && b.addr == s[i].addr && size <= b.size <= size + HEADER + ALIGN
            && Live(Take(s, i, size)) == Live(s[..i]) + [b] + Live(s[i + 1..])
            && Live(s) == Live(s[..i]) + Live(s[i + 1..])
  {
    LiveReplace(s, i, Parts(s[i], size));
    LiveParts(s[i], size);
    LiveReplace(s, i, [s[i]]);
    ReplaceSelf(s, i);
    assert Live(s[..i]) + [] == Live(s[..i]);
  }

  lemma LiveParts(b: Block, size: nat)
    requires size <= b.size
    ensures Live(Parts(b, size)) == [Parts(b, size)[0]]
  {
    var m := Parts(b, size);
    if |m| == 2 { LiveConcat([m[0]], [m[1]]); assert m == [m[0]] + [m[1]]; }
  }

  /** Freeing a block takes exactly that block out of the live ones. */
  lemma LiveFree(s: seq<Block>, i: nat)
    requires i < |s| && !s[i].free
    ensures Live(s) == Live(s[..i]) + [s[i]] + Live(s[i + 1..])
    ensures Live(Free(s, i)) == Live(s[..i]) + Live(s[i + 1..])
  {
    LiveReplace(s, i, [s[i]]);
    ReplaceSelf(s, i);
    LiveReplace(s, i, [s[i].(free := true)]);
    LiveCoalesce(Replace(s, i, [s[i].(free := true)]));
    assert Live([s[i]]) == [s[i]] && Live([s[i].(free := true)]) == [];
    assert Live(s[..i]) + [] == Live(s[..i]);
  }

  // -------------------------------------------------------------------- geometry

  predicate AlignedBlock(b: Block) { b.addr % ALIGN == 0 && b.size % ALIGN == 0 }

  predicate Aligned(s: seq<Block>) {
    forall b :: b in s ==> AlignedBlock(b)
  }

  lemma MergeAligned(a: Block, b: Block)
    requires AlignedBlock(a) && AlignedBlock(b)
    ensures AlignedBlock(Merge(a, b))
  {
  }

  function BlockEnd(b: Block): nat { b.addr + HEADER + b.size }

  /** Each block ends where the next one starts. */
  predicate Touching(s: seq<Block>) {
    |s| < 2 || (BlockEnd(s[0]) == s[1].addr && Touching(s[1..]))
  }

  /** The bytes [lo, hi) lie outside every block of s. */
  predicate Clear(lo: nat, hi: nat, s: seq<Block>) {
    forall b :: b in s ==> hi <= b.addr || BlockEnd(b) <= lo
  }

  /** No two blocks share a byte. */
  predicate Apart(s: seq<Block>) {
    s == [] || (Clear(s[0].addr, BlockEnd(s[0]), s[1..]) && Apart(s[1..]))
  }

  predicate Covers(b: Block, x: nat) { b.addr <= x < BlockEnd(b) }

  /** Merging two blocks of the list yields exactly their bytes if and only if the
      second starts where the first ends; coalesce does not look. */
  lemma MergeIffTouching(a: Block, b: Block)
    requires BlockEnd(a) <= b.addr || BlockEnd(b) <= a.addr
    ensures (forall x :: Covers(Merge(a, b), x) <==> Covers(a, x) || Covers(b, x)) <==> BlockEnd(a) == b.addr
  {
    var x := BlockEnd(a);
    assert Covers(Merge(a, b), x) && !Covers(a, x);
  }

  lemma {:induction false} TouchingAbove(s: seq<Block>, j: nat)
    requires Touching(s) && 0 < j < |s|
    ensures BlockEnd(s[0]) <= s[j].addr
  {
    if j > 1 { TouchingAbove(s[1..], j - 1); }
  }

  lemma {:induction false} TouchingApart(s: seq<Block>)
    requires Touching(s)
    ensures Apart(s)
  {
    if s != [] {
      TouchingApart(s[1..]);
      forall b | b in s[1..] ensures BlockEnd(s[0]) <= b.addr {
        var j :| 0 <= j < |s[1..]| && s[1..][j] == b;
        TouchingAbove(s, j + 1);
      }
    }
  }

  lemma {:induction false} ApartPair(s: seq<Block>, i: nat, j: nat)
    requires Apart(s) && i < j < |s|
    ensures BlockEnd(s[i]) <= s[j].addr || BlockEnd(s[j]) <= s[i].addr
  {
    if i > 0 { ApartPair(s[1..], i - 1, j - 1); } else { assert s[j] == s[1..][j - 1]; }
  }

  /** No block starts inside another one. */
  lemma NoStartInside(s: seq<Block>, i: nat, x: nat, j: nat)
    requires Apart(s) && i < |s| && j < |s| && s[i].addr < x < BlockEnd(s[i])
    ensures s[j].addr != x
  {
    if i < j { ApartPair(s, i, j); } else if j < i { ApartPair(s, j, i); }
  }

  /** Every block of m lies within the bytes of b. */
  predicate Within(m: seq<Block>, b: Block) {
    forall c :: c in m ==> b.addr <= c.addr && BlockEnd(c) <= BlockEnd(b)
  }

  lemma ClearReplace(lo: nat, hi: nat, s: seq<Block>, i: nat, m: seq<Block>)
    requires i < |s| && Clear(lo, hi, s) && Within(m, s[i])
    ensures Clear(lo, hi, Replace(s, i, m))
  {
    assert s[i] in s;
    forall b | b in Replace(s, i, m) ensures hi <= b.addr || BlockEnd(b) <= lo {
      if b in s[..i] { assert b in s; }
      if b in s[i + 1..] { assert b in s; }
    }
  }

  lemma {:induction false} ApartConcat(m: seq<Block>, r: seq<Block>)
    requires Apart(m) && Apart(r) && forall b :: b in m ==> Clear(b.addr, BlockEnd(b), r)
    ensures Apart(m + r)
  {
    if m == [] {
      assert m + r == r;
    } else {
      ApartConcat(m[1..], r);
      assert (m + r)[1..] == m[1..] + r;
      assert m[0] in m;
    }
  }

  lemma {:induction false} ApartReplace(s: seq<Block>, i: nat, m: seq<Block>)
    requires i < |s| && Apart(s) && Apart(m) && Within(m, s[i])
    ensures Apart(Replace(s, i, m))
  {
    hide Clear, Within;
    if i == 0 {
      HeadClear(s, m);
      assert Replace(s, 0, m) == m + s[1..];
      ApartConcat(m, s[1..]);
    } else {
      ApartReplace(s[1..], i - 1, m);
      ClearReplace(s[0].addr, BlockEnd(s[0]), s[1..], i - 1, m);
      ReplaceTail(s, i, m);
    }
  }

  lemma ReplaceTail(s: seq<Block>, i: nat, m: seq<Block>)
    requires 0 < i < |s|
    ensures var r := Replace(s, i, m); r != [] && r[0] == s[0] && r[1..] == Replace(s[1..], i - 1, m)
  {
  }

  lemma HeadClear(s: seq<Block>, m: seq<Block>)
    requires s != [] && Apart(s) && Within(m, s[0])
    ensures forall b :: b in m ==> Clear(b.addr, BlockEnd(b), s[1..])
  {
  }

  lemma PartsWithin(b: Block, size: nat)
    requires size <= b.size
    ensures Within(Parts(b, size), b) && Apart(Parts(b, size))
  {
    var m := Parts(b, size);
    if |m| == 2 { assert m[1..] == [m[1]] && m[1..][1..] == []; } else { assert m[1..] == []; }
  }

  /** Every merge the pass makes joins blocks that touch. */
  predicate MergesTouch(s: seq<Block>) {
    if |s| < 2 then true
    else if s[0].free && s[1].free then BlockEnd(s[0]) == s[1].addr && MergesTouch(s[2..])
    else MergesTouch(s[1..])
  }

  /** Every block that the pass makes covers exactly the bytes of the blocks it replaces. */
  ghost predicate BytesKept(s: seq<Block>) {
    if |s| < 2 then true
    else if s[0].free && s[1].free then
      && (forall x :: Covers(Merge(s[0], s[1]), x) <==> Covers(s[0], x) || Covers(s[1], x))
      && BytesKept(s[2..])
    else BytesKept(s[1..])
  }

  /** A pass over disjoint blocks keeps their bytes if and only if its merges touch. */
  lemma {:induction false} BytesKeptIff(s: seq<Block>)
    requires Apart(s)
    ensures BytesKept(s) <==> MergesTouch(s)
  {
    if |s| >= 2 {
      assert Apart(s[1..]) && s[1..][1..] == s[2..];
      if s[0].free && s[1].free {
        ApartPair(s, 0, 1);
        MergeIffTouching(s[0], s[1]);
        BytesKeptIff(s[2..]);
      } else {
        BytesKeptIff(s[1..]);
      }
    }
  }

  lemma {:induction false} ClearCoalesce(lo: nat, hi: nat, s: seq<Block>)
    requires lo < hi && Clear(lo, hi, s) && MergesTouch(s)
    ensures Clear(lo, hi, Coalesce(s))
  {
    if |s| < 2 {
    } else if s[0].free && s[1].free {
      assert s[0] in s && s[1] in s;
      ClearCoalesce(lo, hi, s[2..]);
    } else {
      assert s[0] in s;
      ClearCoalesce(lo, hi, s[1..]);
    }
  }

  /** Where the merged blocks touch, coalescing keeps the blocks apart. */
  lemma {:induction false} ApartCoalesce(s: seq<Block>)
    requires Apart(s) && MergesTouch(s)
    ensures Apart(Coalesce(s))
  {
    if |s| < 2 {
    } else if s[0].free && s[1].free {
      var m, t := Merge(s[0], s[1]), s[2..];
      assert s[1..][1..] == t && Apart(s[1..]);
      ApartCoalesce(t);
      assert Clear(m.addr, BlockEnd(m), t) by {
        forall b | b in t ensures BlockEnd(m) <= b.addr || BlockEnd(b) <= m.addr { assert b in s[1..]; }
      }
      ClearCoalesce(m.addr, BlockEnd(m), t);
      assert ([m] + Coalesce(t))[1..] == Coalesce(t);
    } else {
      ApartCoalesce(s[1..]);
      ClearCoalesce(s[0].addr, BlockEnd(s[0]), s[1..]);
      assert ([s[0]] + Coalesce(s[1..]))[1..] == Coalesce(s[1..]);
    }
  }

  lemma {:induction false} TouchingCoalesce(s: seq<Block>)
    requires Touching(s)
    ensures Touching(Coalesce(s))
  {
    if |s| < 2 {
    } else if s[0].free && s[1].free {
      var t := s[2..];
      assert s[1..][1..] == t;
      TouchingCoalesce(t);
      if t != [] { CoalesceHead(t); }
    } else {
      TouchingCoalesce(s[1..]);
      CoalesceHead(s[1..]);
    }
  }

  lemma {:induction false} AlignedCoalesce(s: seq<Block>)
    requires Aligned(s)
    ensures Aligned(Coalesce(s))
  {
    if |s| < 2 {
    } else if s[0].free && s[1].free {
      hide AlignedBlock;
      AlignedCoalesce(s[2..]);
      assert s[0] in s && s[1] in s;
      MergeAligned(s[0], s[1]);
    } else {
      AlignedCoalesce(s[1..]);
      assert s[0] in s;
    }
  }

  lemma {:induction false} TouchingConcat(s: seq<Block>, t: seq<Block>)
    requires s != [] && t != []
    ensures Touching(s + t) <==> Touching(s) && Touching(t) && BlockEnd(s[|s| - 1]) == t[0].addr
  {
    if |s| > 1 {
      TouchingConcat(s[1..], t);
      assert (s + t)[1..] == s[1..] + t;
    } else {
      assert (s + t)[1..] == t;
    }
  }

  lemma {:induction false} TouchingReplace(s: seq<Block>, i: nat, m: seq<Block>)
    requires i < |s| && Touching(s) && Touching(m) && m != []
    requires m[0].addr == s[i].addr && BlockEnd(m[|m| - 1]) == BlockEnd(s[i])
    ensures Touching(Replace(s, i, m))
  {
    if i > 0 {
      TouchingReplace(s[1..], i - 1, m);
      assert Replace(s, i, m) == [s[0]] + Replace(s[1..], i - 1, m);
      TouchingConcat([s[0]], Replace(s[1..], i - 1, m));
    } else if |s| > 1 {
      TouchingConcat(m, s[1..]);
      assert Replace(s, i, m) == m + s[1..];
    } else {
      assert Replace(s, i, m) == m;
    }
  }

  lemma PartsAligned(b: Block, size: nat)
    requires size <= b.size && size % ALIGN == 0 && AlignedBlock(b)
    ensures Aligned(Parts(b, size))
  {
    if b.size - size > HEADER + ALIGN {
      Multiples(b.addr + HEADER, size);
      Multiples(b.size, size);
      Multiples(b.size - size, HEADER);
    }
  }

  lemma Multiples(x: nat, y: nat)
    requires x % ALIGN == 0 && y % ALIGN == 0
    ensures (x + y) % ALIGN == 0 && (y <= x ==> (x - y) % ALIGN == 0)
  {
  }

  lemma PartsGeometry(b: Block, size: nat)
    requires size <= b.size && size % ALIGN == 0 && AlignedBlock(b)
    ensures var m := Parts(b, size);
            Touching(m) && Aligned(m) && m != [] && m[0].addr == b.addr && BlockEnd(m[|m| - 1]) == BlockEnd(b)
  {
    PartsAligned(b, size);
    hide Aligned, AlignedBlock;
  }

  lemma AlignedReplace(s: seq<Block>, i: nat, m: seq<Block>)
    requires i < |s| && Aligned(s) && Aligned(m)
    ensures Aligned(Replace(s, i, m))
  {
    forall b | b in Replace(s, i, m) ensures b in s || b in m {
      if b in s[..i] { assert b in s; }
      if b in s[i + 1..] { assert b in s; }
    }
  }

  // --------------------------------------------------------------- live blocks

  lemma {:induction false} InLive(s: seq<Block>, b: Block)
    ensures b in Live(s) <==> b in s && !b.free
  {
    if s != [] { InLive(s[1..], b); }
  }

  lemma {:induction false} LiveApart(s: seq<Block>)
    requires Apart(s)
    ensures Apart(Live(s))
  {
    if s != [] {
      LiveApart(s[1..]);
      if !s[0].free {
        forall b | b in Live(s[1..]) ensures BlockEnd(s[0]) <= b.addr || BlockEnd(b) <= s[0].addr { InLive(s[1..], b); }
        assert Live(s)[1..] == Live(s[1..]);
      }
    }
  }

  /** kmalloc takes no live block away. */
  lemma MallocSpares(s: seq<Block>, request: nat, extent: nat, b: Block)
    requires Allowed(s, KMalloc(request, extent)) && b in Live(s)
    ensures b in Live(Malloc(s, request, extent).0)
  {
    ExtentSaneIff(request);
    hide AlignBlock, ExtentBytes, FirstFit, Live, Take;
    var size := AlignBlock(request);
    var i := FirstFit(s, size);
    if request != 0 && i < |s| {
      LiveTake(s, i, size);
    } else if request != 0 && extent != 0 && ExtentBytes(size) != 0 {
      AppendLive(s, NewBlock(extent, size));
      LiveTake(s + [NewBlock(extent, size)], |s|, size);
    }
  }

  lemma AppendLive(s: seq<Block>, b: Block)
    requires b.free
    ensures Live(s + [b]) == Live(s)
  {
    LiveConcat(s, [b]);
  }

  /** A block handed out is larger than asked by at most a header and 16 bytes, and what is
      split off can still serve a request. */
  lemma PartsTight(b: Block, size: nat)
    requires size <= b.size
    ensures var m := Parts(b, size);
            && |m| > 0 && m[0].addr == b.addr && size <= m[0].size <= size + HEADER + ALIGN
            && (|m| > 1 ==>
                  m[1].free && m[1].size > ALIGN && m[1].addr == BlockEnd(m[0]) && BlockEnd(m[1]) == BlockEnd(b))
  {
  }

  /** kmalloc answers 0 exactly for a request of 0, or when no free block is large enough and
      there is no extent or the size of one would wrap. */
  lemma MallocFailsIff(s: seq<Block>, request: nat, extent: nat)
    requires request + ALIGN <= U64 && Sane(request)
    ensures Pointer(s, request, extent) == 0 <==>
            || request == 0
            || ((forall b :: b in s && b.free ==> b.size < AlignBlock(request)) && (extent == 0 || !NoWrap(request)))
  {
    ExtentHoldsIff(request);
    ExtentSaneIff(request);
    BlockRounding(request);
    hide AlignBlock, ExtentBytes, NoWrap, Sane, Parts;
    var i := FirstFit(s, AlignBlock(request));
    hide FirstFit;
    if i < |s| {
      assert s[i] in s;
    } else {
      forall b | b in s && b.free ensures b.size < AlignBlock(request) {}
    }
  }

  /** The pointer kmalloc returns is the payload of a live block that was not live before. */
  lemma MallocGives(s: seq<Block>, request: nat, extent: nat) returns (b: Block)
    requires Allowed(s, KMalloc(request, extent)) && Apart(s) && Safe(s, KMalloc(request, extent))
    requires request + ALIGN <= U64 && Pointer(s, request, extent) != 0
    ensures b in Live(Malloc(s, request, extent).0) && b.addr + HEADER == Pointer(s, request, extent)
    ensures request <= b.size < request + ALIGN + HEADER + ALIGN
    ensures forall c :: c in Live(s) ==> c.addr != b.addr
  {
    DoApart(s, KMalloc(request, extent));
    BlockRounding(request);
    ExtentSaneIff(request);
    hide AlignBlock, ExtentBytes, FirstFit, Live, Take, Apart, Safe;
    var size := AlignBlock(request);
    var i := FirstFit(s, size);
    if i < |s| {
      b := TakeGives(s, i, size);
    } else {
      AppendLive(s, NewBlock(extent, size));
      b := TakeGives(s + [NewBlock(extent, size)], |s|, size);
    }
  }

  lemma TakeGives(s: seq<Block>, i: nat, size: nat) returns (b: Block)
    requires i < |s| && Fits(s[i], size) && Apart(Take(s, i, size))
    ensures b == Take(s, i, size)[i] && b in Live(Take(s, i, size)) && size <= b.size <= size + HEADER + ALIGN
    ensures forall c :: c in Live(s) ==> c.addr != b.addr
  {
    LiveTake(s, i, size);
    b := Parts(s[i], size)[0];
    assert Take(s, i, size)[i] == b;
    PartsTight(s[i], size);
    LiveApart(Take(s, i, size));
    hide Live, Take, Apart, Parts;
    NewAddress(Live(s[..i]), b, Live(s[i + 1..]));
  }

  lemma NewAddress(lo: seq<Block>, b: Block, hi: seq<Block>)
    requires Apart(lo + [b] + hi)
    ensures forall c :: c in lo + hi ==> c.addr != b.addr
  {
    hide Apart;
    var t := lo + [b] + hi;
    forall j | 0 <= j < |t| && j != |lo| ensures t[j].addr != b.addr {
      if j < |lo| { ApartPair(t, j, |lo|); } else { ApartPair(t, |lo|, j); }
    }
    forall c | c in lo + hi ensures c.addr != b.addr {
      var j :| 0 <= j < |lo + hi| && (lo + hi)[j] == c;
      assert t[if j < |lo| then j else j + 1] == c;
    }
  }

  /** kfree of one live block spares every live block at another address. */
  lemma FreeSpares(s: seq<Block>, i: nat, b: Block)
    requires i < |s| && !s[i].free && b in Live(s) && b.addr != s[i].addr
    ensures b in Live(Free(s, i))
  {
    LiveFree(s, i);
  }

  /** A live block is found by its address. */
  lemma {:induction false} FindLive(s: seq<Block>, b: Block)
    requires Apart(s) && b in Live(s)
    ensures IndexOf(s, b.addr) < |s| && s[IndexOf(s, b.addr)] == b && !b.free
  {
    InLive(s, b);
    if s[0] != b {
      InLive(s[1..], b);
      FindLive(s[1..], b);
      assert b in s[1..];
    }
  }

  // ------------------------------------------------------------------------ runs

  datatype Call = KMalloc(request: nat, extent: nat) | KFree(index: nat)

  /** Calls a correct client makes: only live blocks are freed, extents are pages. */
  predicate Allowed(s: seq<Block>, c: Call) {
    match c
    case KMalloc(request, extent) => request < U64 && Sane(request) && extent % PAGE_SIZE == 0
    case KFree(i) => i < |s| && !s[i].free
  }

  function Do(s: seq<Block>, c: Call): seq<Block>
    requires Allowed(s, c)
  {
    match c
    case KMalloc(request, extent) => Malloc(s, request, extent).0
    case KFree(i) => Free(s, i)
  }

  function Grown(s: seq<Block>, c: Call): nat {
    if c.KMalloc? then Fetched(s, c.request, c.extent) else 0
  }

  /** The call leaves the code's list what the value list says: a new extent lies clear
      of all blocks, which the frame allocator sees to, and every merge of a kfree joins
      blocks that touch, which nothing sees to. */
  predicate Safe(s: seq<Block>, c: Call)
    requires Allowed(s, c)
  {
    match c
    case KMalloc(request, extent) =>
      Fetched(s, request, extent) > 0 ==> Clear(extent, extent + Fetched(s, request, extent), s)
    case KFree(i) => MergesTouch(Freed(s, i))
  }

  ghost predicate ListStep(ss: seq<seq<Block>>, cs: seq<Call>, k: nat)
    requires |ss| == |cs| + 1 && k < |cs|
  {
    Allowed(ss[k], cs[k]) && ss[k + 1] == Do(ss[k], cs[k])
  }

  ghost predicate SafeStep(ss: seq<seq<Block>>, cs: seq<Call>, k: nat)
    requires |ss| == |cs| + 1 && k < |cs|
  {
    ListStep(ss, cs, k) && Safe(ss[k], cs[k])
  }

  /** A run of the value list, whether or not the code's list follows it. */
  ghost predicate ListRun(ss: seq<seq<Block>>, cs: seq<Call>) {
    |ss| == |cs| + 1 && forall k :: 0 <= k < |cs| ==> ListStep(ss, cs, k)
  }

  /** No two blocks share a byte, all addresses and sizes are multiples of 16, and at most
      one pair of list neighbours is free. */
  predicate Good(s: seq<Block>) {
    Apart(s) && Aligned(s) && Pairs(s) <= 1
  }

  /** A run that the code follows. */
  ghost predicate Run(ss: seq<seq<Block>>, cs: seq<Call>) {
    |ss| == |cs| + 1 && Good(ss[0]) && forall k :: 0 <= k < |cs| ==> SafeStep(ss, cs, k)
  }

  function AllGrown(ss: seq<seq<Block>>, cs: seq<Call>, k: nat): nat
    requires |ss| == |cs| + 1 && k <= |cs|
  {
    if k == 0 then 0 else AllGrown(ss, cs, k - 1) + Grown(ss[k - 1], cs[k - 1])
  }

  /** kmalloc_init leaves one free block of two pages. */
  lemma StartGood(first: nat)
    requires first % PAGE_SIZE == 0
    ensures var s := [NewBlock(first, PAGE_SIZE)]; Good(s) && Total(s) == ExtentBytes(PAGE_SIZE)
  {
    PageRounding(PAGE_SIZE + HEADER);
    AlignedAppend([], NewBlock(first, PAGE_SIZE));
    assert [] + [NewBlock(first, PAGE_SIZE)] == [NewBlock(first, PAGE_SIZE)];
  }

  /** A run goes on by one more safe call. */
  lemma RunOn(ss: seq<seq<Block>>, cs: seq<Call>, c: Call)
    requires Run(ss, cs) && Allowed(ss[|cs|], c) && Safe(ss[|cs|], c)
    ensures var t := Do(ss[|cs|], c);
            && Run(ss + [t], cs + [c])
            && AllGrown(ss + [t], cs + [c], |cs| + 1) == AllGrown(ss, cs, |cs|) + Grown(ss[|cs|], c)
  {
    hide Good, Safe, Do;
    var rs, ds := ss + [Do(ss[|cs|], c)], cs + [c];
    forall k | 0 <= k < |ds| ensures SafeStep(rs, ds, k) {
      if k < |cs| { assert SafeStep(ss, cs, k); }
    }
    SameGrown(ss, cs, rs, ds, |cs|);
  }

  lemma {:induction false} SameGrown(ss: seq<seq<Block>>, cs: seq<Call>, rs: seq<seq<Block>>, ds: seq<Call>, k: nat)
    requires |ss| == |cs| + 1 && |rs| == |ds| + 1 && k <= |cs| && ss <= rs && cs <= ds
    ensures AllGrown(ss, cs, k) == AllGrown(rs, ds, k)
  {
    hide Grown;
    if k > 0 { SameGrown(ss, cs, rs, ds, k - 1); }
  }

  /** Of the value list alone: every call keeps alignment and the bound of one adjacent
      free pair, and the total grows by what is fetched. */
  lemma DoKeeps(s: seq<Block>, c: Call)
    requires Allowed(s, c) && Aligned(s) && Pairs(s) <= 1
    ensures Aligned(Do(s, c)) && Pairs(Do(s, c)) <= 1
    ensures Total(Do(s, c)) == Total(s) + Grown(s, c)
  {
    match c
    case KMalloc(request, extent) => MallocKeeps(s, request, extent);
    case KFree(i) =>
      var m := [s[i].(free := true)];
      assert s[i] in s;
      AlignedReplace(s, i, m);
      AlignedCoalesce(Replace(s, i, m));
      FreeAddsTwo(s, i);
      CoalesceHalves(Replace(s, i, m));
      TotalReplace(s, i, m);
      TotalCoalesce(Replace(s, i, m));
  }

  lemma MallocKeeps(s: seq<Block>, request: nat, extent: nat)
    requires Allowed(s, KMalloc(request, extent)) && Aligned(s)
    ensures var t := Malloc(s, request, extent).0;
            Aligned(t) && Pairs(t) <= Pairs(s) && Total(t) == Total(s) + Fetched(s, request, extent)
  {
    NewExtent(s, request, extent);
    hide ExtentBytes, AlignBlock, FirstFit, Aligned;
    var size := AlignBlock(request);
    var i := FirstFit(s, size);
    if request != 0 && i < |s| {
      TakeKeeps(s, i, size);
      TakeAddsNone(s, i, size);
    } else if request != 0 && extent != 0 && ExtentBytes(size) != 0 {
      var b := NewBlock(extent, size);
      TakeKeeps(s + [b], |s|, size);
      TakeLastAddsNone(s, b, size);
      TotalConcat(s, [b]);
    }
  }

  /** A safe call keeps the blocks apart. */
  lemma DoApart(s: seq<Block>, c: Call)
    requires Allowed(s, c) && Apart(s) && Safe(s, c)
    ensures Apart(Do(s, c))
  {
    hide Apart, Clear, MergesTouch, AlignBlock, ExtentBytes, FirstFit;
    match c
    case KMalloc(request, extent) =>
      ExtentSaneIff(request);
      var size := AlignBlock(request);
      var i := FirstFit(s, size);
      if request != 0 && i < |s| {
        TakeApart(s, i, size);
      } else if request != 0 && extent != 0 && ExtentBytes(size) != 0 {
        AppendApart(s, NewBlock(extent, size));
        TakeApart(s + [NewBlock(extent, size)], |s|, size);
      }
    case KFree(i) => FreeApart(s, i);
  }

  lemma TakeApart(s: seq<Block>, i: nat, size: nat)
    requires Apart(s) && i < |s| && size <= s[i].size
    ensures Apart(Take(s, i, size))
  {
    PartsWithin(s[i], size);
    ApartReplace(s, i, Parts(s[i], size));
  }

  lemma AppendApart(s: seq<Block>, b: Block)
    requires Apart(s) && Clear(b.addr, BlockEnd(b), s)
    ensures Apart(s + [b])
  {
    forall c | c in s ensures Clear(c.addr, BlockEnd(c), [b]) {}
    ApartConcat(s, [b]);
  }

  lemma FreeApart(s: seq<Block>, i: nat)
    requires Apart(s) && i < |s| && MergesTouch(Freed(s, i))
    ensures Apart(Free(s, i))
  {
    var m := [s[i].(free := true)];
    assert Within(m, s[i]) && Apart(m);
    ApartReplace(s, i, m);
    ApartCoalesce(Freed(s, i));
  }

  lemma TakeKeeps(s: seq<Block>, i: nat, size: nat)
    requires i < |s| && size <= s[i].size && size % ALIGN == 0 && Aligned(s)
    ensures Aligned(Take(s, i, size)) && Total(Take(s, i, size)) == Total(s)
    ensures Touching(s) ==> Touching(Take(s, i, size))
  {
    assert s[i] in s;
    PartsGeometry(s[i], size);
    AlignedReplace(s, i, Parts(s[i], size));
    TotalReplace(s, i, Parts(s[i], size));
    PartsTotal(s[i], size);
    if Touching(s) { TouchingReplace(s, i, Parts(s[i], size)); }
  }

  lemma AlignedAppend(s: seq<Block>, b: Block)
    requires Aligned(s) && b.addr % PAGE_SIZE == 0 && (HEADER + b.size) % PAGE_SIZE == 0
    ensures Aligned(s + [b])
  {
    PageAligned(b.addr);
    PageAligned(HEADER + b.size);
  }

  lemma PageAligned(x: nat)
    requires x % PAGE_SIZE == 0
    ensures x % ALIGN == 0 && (x >= HEADER ==> (x - HEADER) % ALIGN == 0)
  {
    var q := x / PAGE_SIZE;
    assert x == ALIGN * (256 * q);
  }

  lemma NewExtent(s: seq<Block>, request: nat, extent: nat)
    requires request < U64 && Sane(request) && extent % PAGE_SIZE == 0 && Aligned(s)
    ensures var size := AlignBlock(request);
            && size % ALIGN == 0
            && (ExtentBytes(size) != 0 ==> NewBlock(extent, size).size == ExtentBytes(size) - HEADER >= size
                                           && Aligned(s + [NewBlock(extent, size)]))
  {
    BlockRounding(request);
    ExtentSaneIff(request);
    var size := AlignBlock(request);
    PageRounding((size + HEADER) % U64);
    if ExtentBytes(size) != 0 { AlignedAppend(s, NewBlock(extent, size)); }
  }

  /** Of the value list alone. */
  lemma {:induction false} ListKeeps(ss: seq<seq<Block>>, cs: seq<Call>, k: nat)
    requires ListRun(ss, cs) && Aligned(ss[0]) && Pairs(ss[0]) <= 1 && k <= |cs|
    ensures Aligned(ss[k]) && Pairs(ss[k]) <= 1 && Total(ss[k]) == Total(ss[0]) + AllGrown(ss, cs, k)
    decreases k
  {
    hide Aligned, Pairs, Total;
    if k > 0 {
      ListKeeps(ss, cs, k - 1);
      assert ListStep(ss, cs, k - 1);
      DoKeeps(ss[k - 1], cs[k - 1]);
    }
  }

  /** Every state of every run that the code follows: no two blocks share a byte; at most
      one pair of list neighbours is free, although one pass of coalesce does not merge a
      longer run of free blocks completely; all addresses and sizes are multiples of 16;
      and no byte taken from the frame allocator is lost or made up. */
  lemma {:induction false} RunKeeps(ss: seq<seq<Block>>, cs: seq<Call>, k: nat)
    requires Run(ss, cs) && k <= |cs|
    ensures Good(ss[k]) && Total(ss[k]) == Total(ss[0]) + AllGrown(ss, cs, k)
    decreases k
  {
    assert |ss| == |cs| + 1 && Good(ss[0]);
    hide *;
    NoneGrown(ss, cs, k);
    if k > 0 {
      RunKeeps(ss, cs, k - 1);
      StepKeeps(ss, cs, k - 1);
    }
  }

  lemma NoneGrown(ss: seq<seq<Block>>, cs: seq<Call>, k: nat)
    requires |ss| == |cs| + 1 && k <= |cs|
    ensures AllGrown(ss, cs, k) == if k == 0 then 0 else AllGrown(ss, cs, k - 1) + Grown(ss[k - 1], cs[k - 1])
  {
  }

  lemma StepKeeps(ss: seq<seq<Block>>, cs: seq<Call>, k: nat)
    requires Run(ss, cs) && k < |cs| && Good(ss[k])
    ensures Good(ss[k + 1]) && Total(ss[k + 1]) == Total(ss[k]) + Grown(ss[k], cs[k])
  {
    hide Apart, Aligned, Pairs, Total, Do, Grown;
    assert SafeStep(ss, cs, k);
    DoKeeps(ss[k], cs[k]);
    DoApart(ss[k], cs[k]);
  }

  /** What at most one pair means. */
  lemma {:induction false} OnePair(s: seq<Block>, i: nat, j: nat)
    requires Pairs(s) <= 1 && i < j && j + 1 < |s|
    ensures !(s[i].free && s[i + 1].free && s[j].free && s[j + 1].free)
  {
    if i > 0 {
      OnePair(s[1..], i - 1, j - 1);
    } else if s[0].free && s[1].free {
      NoPair(s[1..], j - 1);
    }
  }

  lemma {:induction false} NoPair(s: seq<Block>, j: nat)
    requires Pairs(s) == 0 && j + 1 < |s|
    ensures !(s[j].free && s[j + 1].free)
  {
    if j > 0 { NoPair(s[1..], j - 1); }
  }

  /** In no state of a run that the code follows are three list-consecutive blocks free. */
  lemma NeverThree(ss: seq<seq<Block>>, cs: seq<Call>, k: nat, i: nat)
    requires Run(ss, cs) && k <= |cs| && i + 2 < |ss[k]|
    ensures !(ss[k][i].free && ss[k][i + 1].free && ss[k][i + 2].free)
  {
    RunKeeps(ss, cs, k);
    OnePair(ss[k], i, i + 1);
  }

  predicate ExtentFollows(s: seq<Block>, c: Call) {
    Grown(s, c) > 0 ==> s != [] && c.extent == BlockEnd(s[|s| - 1])
  }

  /** Each extent that was fetched starts where the last block ends. */
  ghost predicate Contiguous(ss: seq<seq<Block>>, cs: seq<Call>)
    requires |ss| == |cs| + 1
  {
    forall k :: 0 <= k < |cs| ==> ExtentFollows(ss[k], cs[k])
  }

  /** If every extent starts where the tail block ends, the blocks tile the heap in
      every state of the run, and the code follows the run whatever is freed. */
  lemma {:induction false} RunTiles(ss: seq<seq<Block>>, cs: seq<Call>, k: nat)
    requires ListRun(ss, cs) && k <= |cs| && Contiguous(ss, cs) && Touching(ss[0]) && Aligned(ss[0])
    requires Pairs(ss[0]) <= 1
    ensures Touching(ss[k]) && Apart(ss[k]) && (k < |cs| ==> SafeStep(ss, cs, k))
    decreases k
  {
    ListLength(ss, cs);
    hide *;
    if k > 0 {
      RunTiles(ss, cs, k - 1);
      ListKeeps(ss, cs, k - 1);
      TilesAt(ss, cs, k - 1);
    }
    TouchingApart(ss[k]);
    if k < |cs| {
      ListKeeps(ss, cs, k);
      TilesAt(ss, cs, k);
    }
  }

  lemma ListLength(ss: seq<seq<Block>>, cs: seq<Call>)
    requires ListRun(ss, cs)
    ensures |ss| == |cs| + 1
  {
  }

  lemma TilesAt(ss: seq<seq<Block>>, cs: seq<Call>, k: nat)
    requires ListRun(ss, cs) && k < |cs| && Contiguous(ss, cs) && Touching(ss[k]) && Aligned(ss[k])
    ensures Touching(ss[k + 1]) && SafeStep(ss, cs, k)
  {
    hide Aligned, Touching, Do, Safe, ExtentFollows;
    assert ListStep(ss, cs, k) && ExtentFollows(ss[k], cs[k]);
    TilesStep(ss[k], cs[k]);
    TilesSafe(ss[k], cs[k]);
  }

  lemma TilesStep(s: seq<Block>, c: Call)
    requires Allowed(s, c) && Touching(s) && Aligned(s) && ExtentFollows(s, c)
    ensures Touching(Do(s, c))
  {
    match c
    case KMalloc(request, extent) => MallocTouching(s, request, extent);
    case KFree(i) =>
      TouchingReplace(s, i, [s[i].(free := true)]);
      TouchingCoalesce(Freed(s, i));
  }

  lemma TilesSafe(s: seq<Block>, c: Call)
    requires Allowed(s, c) && Touching(s) && ExtentFollows(s, c)
    ensures Safe(s, c)
  {
    match c
    case KMalloc(request, extent) =>
      if Grown(s, c) > 0 {
        forall b | b in s ensures BlockEnd(b) <= extent {
          var j :| 0 <= j < |s| && s[j] == b;
          TouchingBelow(s, j);
        }
      }
    case KFree(i) =>
      TouchingReplace(s, i, [s[i].(free := true)]);
      TouchingMerges(Freed(s, i));
  }

  lemma {:induction false} TouchingBelow(s: seq<Block>, j: nat)
    requires Touching(s) && j < |s|
    ensures BlockEnd(s[j]) <= BlockEnd(s[|s| - 1])
  {
    if j > 0 {
      TouchingBelow(s[1..], j - 1);
    } else if |s| > 1 {
      TouchingBelow(s[1..], 0);
    }
  }

  lemma {:induction false} TouchingMerges(s: seq<Block>)
    requires Touching(s)
    ensures MergesTouch(s)
  {
    if |s| >= 2 {
      if s[0].free && s[1].free {
        assert s[1..][1..] == s[2..];
        TouchingMerges(s[2..]);
      } else {
        TouchingMerges(s[1..]);
      }
    }
  }

  lemma AppendTouching(s: seq<Block>, b: Block)
    requires s != [] && Touching(s) && BlockEnd(s[|s| - 1]) == b.addr
    ensures Touching(s + [b])
  {
    TouchingConcat(s, [b]);
  }

  lemma MallocTouching(s: seq<Block>, request: nat, extent: nat)
    requires Allowed(s, KMalloc(request, extent)) && Touching(s) && Aligned(s)
    requires ExtentFollows(s, KMalloc(request, extent))
    ensures Touching(Malloc(s, request, extent).0)
  {
    NewExtent(s, request, extent);
    hide ExtentBytes, AlignBlock, FirstFit, Aligned, Take, Touching;
    var size := AlignBlock(request);
    var i := FirstFit(s, size);
    if request != 0 && i < |s| {
      TakeKeeps(s, i, size);
    } else if request != 0 && extent != 0 && ExtentBytes(size) != 0 {
      GrowTouching(s, NewBlock(extent, size), size);
    }
  }

  lemma GrowTouching(s: seq<Block>, b: Block, size: nat)
    requires s != [] && Touching(s) && BlockEnd(s[|s| - 1]) == b.addr && Aligned(s + [b]) && size % ALIGN == 0
    requires size <= b.size
    ensures Touching(Take(s + [b], |s|, size))
  {
    hide Touching, Aligned, Take;
    AppendTouching(s, b);
    TakeKeeps(s + [b], |s|, size);
  }

  /** Contiguous extents make every run of live frees one that the code follows. */
  lemma TilesRun(ss: seq<seq<Block>>, cs: seq<Call>)
    requires ListRun(ss, cs) && Contiguous(ss, cs) && Touching(ss[0]) && Aligned(ss[0]) && Pairs(ss[0]) <= 1
    ensures Run(ss, cs)
  {
    hide Apart, Aligned, Pairs, Touching, SafeStep, Contiguous, ListRun;
    ListLength(ss, cs);
    RunTiles(ss, cs, 0);
    forall k | 0 <= k < |cs| ensures SafeStep(ss, cs, k) { RunTiles(ss, cs, k); }
  }

  // -------------------------------------------------------- a merge across a gap

  /** Three extents, the second above the third; the first two are freed, and a block is
      taken from what coalesce made of them. */
  function GapCalls(): seq<Call> {
    [KMalloc(8160, 0), KMalloc(8160, 0x20000), KMalloc(8160, 0x12000), KFree(1), KFree(0), KMalloc(8160, 0)]
  }

  function GapStates(): seq<seq<Block>> {
    var first, second, third := Block(0x10000, 8160, false), Block(0x20000, 8160, false), Block(0x12000, 8160, false);
    [[first.(free := true)],
     [first],
     [first, second],
     [first, second, third],
     [first, second.(free := true), third],
     [Block(0x10000, 16352, true), third],
     [first, third.(free := true), third]]
  }

  lemma GapMallocs()
    ensures var ss := GapStates();
            && Malloc(ss[0], 8160, 0).0 == ss[1] && Malloc(ss[1], 8160, 0x20000).0 == ss[2]
            && Malloc(ss[2], 8160, 0x12000).0 == ss[3] && Malloc(ss[5], 8160, 0).0 == ss[6]
    ensures Sane(8160) && ExtentBytes(8160) == 8192 && AlignBlock(8160) == 8160
  {
    var ss := GapStates();
    assert AlignBlock(8160) == 8160 && ExtentBytes(8160) == 8192;
    hide AlignBlock, ExtentBytes;
    GapFits();
    assert Take(ss[0], 0, 8160) == ss[1];
    assert Take(ss[1] + [NewBlock(0x20000, 8160)], 1, 8160) == ss[2];
    assert Take(ss[2] + [NewBlock(0x12000, 8160)], 2, 8160) == ss[3];
    assert Take(ss[5], 0, 8160) == ss[6];
  }

  lemma GapFits()
    ensures var ss := GapStates();
            && FirstFit(ss[0], 8160) == 0 && FirstFit(ss[1], 8160) == 1 && FirstFit(ss[2], 8160) == 2
            && FirstFit(ss[5], 8160) == 0
  {
    hide FirstFit;
    var ss := GapStates();
    assert Fits(ss[0][0], 8160) && Fits(ss[5][0], 8160);
  }

  lemma GapFrees()
    ensures var ss := GapStates(); Free(ss[3], 1) == ss[4] && Free(ss[4], 0) == ss[5]
    ensures MergesTouch(Freed(GapStates()[3], 1)) && !MergesTouch(Freed(GapStates()[4], 0))
  {
    var ss := GapStates();
    var t, u := Freed(ss[3], 1), Freed(ss[4], 0);
    assert t == ss[4];
    assert t[1..] == [t[1], t[2]] && t[1..][1..] == [t[2]];
    assert Coalesce([t[2]]) == [t[2]] && Coalesce(t[1..]) == [t[1]] + [t[2]];
    assert Coalesce(t) == [t[0]] + ([t[1]] + [t[2]]);
    assert u == [ss[0][0], t[1], t[2]];
    assert u[2..] == [t[2]];
    assert Coalesce(u) == [Merge(u[0], u[1])] + [t[2]];
  }

  /** The failing run. Up to the fifth call the code follows it. That call merges the
      first two extents across the gap between them, so that a free block covers the
      third extent, which is live; the sixth call then splits it at the very address of
      the live block's header. */
  lemma GapRun()
    ensures ListRun(GapStates(), GapCalls()) && Run(GapStates()[..5], GapCalls()[..4])
    ensures !Safe(GapStates()[4], GapCalls()[4])
    ensures var s, t := GapStates()[5], GapStates()[6];
            && s[0].free && !s[1].free && (forall x :: Covers(s[1], x) ==> Covers(s[0], x))
            && t[1].free && !t[2].free && t[1].addr == t[2].addr
  {
    GapMallocs();
    GapFrees();
    hide Malloc, Free, MergesTouch;
    var ss, cs := GapStates(), GapCalls();
    forall k | 0 <= k < |cs| ensures ListStep(ss, cs, k) {}
    GapGood();
    var rs, ds := ss[..5], cs[..4];
    forall k | 0 <= k < |ds| ensures SafeStep(rs, ds, k) { assert ListStep(ss, cs, k); }
  }

  lemma GapGood()
    ensures var ss := GapStates();
            && Good(ss[0]) && Clear(0x20000, 0x22000, ss[1]) && Clear(0x12000, 0x14000, ss[2])
            && Fetched(ss[0], 8160, 0) == 0 && Fetched(ss[1], 8160, 0x20000) == 0x2000
            && Fetched(ss[2], 8160, 0x12000) == 0x2000
  {
    GapMallocs();
    GapFits();
    StartGood(0x10000);
    assert NewBlock(0x10000, PAGE_SIZE) == GapStates()[0][0];
  }
}
