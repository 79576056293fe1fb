/** kernel/kmalloc.c on memory: block headers at addresses, linked by next pointers.
    Each operation does to the list what module Heap says. */
module Kmalloc {
  import opened Words
  import opened Heap
  import opened Pmm

  /** struct KBlock; next is an address, 0 at the end. */
  datatype KBlock = KBlock(size: nat, free: bool, next: nat)

  type Headers = map<nat, KBlock>

  function At(chain: seq<nat>, i: nat): nat {
    if i < |chain| then chain[i] else 0
  }

  ghost predicate NodeOk(hdr: Headers, chain: seq<nat>, i: nat)
    requires i < |chain|
  {
    chain[i] in hdr && hdr[chain[i]].next == At(chain, i + 1)
  }

  /** The headers reached from head are those at the addresses of chain, in that order. */
  ghost predicate ListOk(hdr: Headers, head: nat, chain: seq<nat>) {
    && head == At(chain, 0)
    && (forall i :: 0 <= i < |chain| ==> chain[i] != 0 && chain[i] in hdr)
    && (forall i, j :: 0 <= i < j < |chain| ==> chain[i] != chain[j])
    && (forall i :: 0 <= i < |chain| ==> NodeOk(hdr, chain, i))
  }

  function BlockAt(hdr: Headers, a: nat): Block {
    if a in hdr then Block(a, hdr[a].size, hdr[a].free) else Block(a, 0, false)
  }

  /** The list as a value. */
  function View(hdr: Headers, chain: seq<nat>): (s: seq<Block>)
    ensures |s| == |chain| && forall i {:trigger s[i]} :: 0 <= i < |s| ==> s[i] == BlockAt(hdr, chain[i])
  {
    seq(|chain|, i requires 0 <= i < |chain| => BlockAt(hdr, chain[i]))
  }

  // ------------------------------------------------------------- header updates

  function RemoveAt<T>(s: seq<T>, i: nat): (r: seq<T>)
    requires i < |s|
    ensures |r| == |s| - 1 && forall k {:trigger r[k]} :: 0 <= k < |r| ==> r[k] == if k < i then s[k] else s[k + 1]
  {
    s[..i] + s[i + 1..]
  }

  function InsertAt<T>(s: seq<T>, i: nat, x: T): (r: seq<T>)
    requires i <= |s|
    ensures |r| == |s| + 1
    ensures forall k {:trigger r[k]} :: 0 <= k < |r| ==> r[k] == if k < i then s[k] else if k == i then x else s[k - 1]
  {
    s[..i] + [x] + s[i..]
  }

  lemma ReplaceOne(s: seq<Block>, i: nat, x: Block)
    requires i < |s|
    ensures Replace(s, i, [x]) == s[i := x]
  {
  }

  lemma ReplaceTwo(s: seq<Block>, i: nat, x: Block, y: Block)
    requires i < |s|
    ensures Replace(s, i, [x, y]) == InsertAt(s, i + 1, y)[i := x]
  {
    var r, t := InsertAt(s, i + 1, y), Replace(s, i, [x, y]);
    assert t[..i] == s[..i] && t[i + 2..] == s[i + 1..];
    assert r[..i] == s[..i] && r[i + 2..] == s[i + 1..];
  }

  /** One header changes, its next pointer stays. */
  lemma SetHeader(hdr: Headers, head: nat, chain: seq<nat>, i: nat, size: nat, free: bool)
    requires ListOk(hdr, head, chain) && i < |chain|
    ensures var hdr' := hdr[chain[i] := KBlock(size, free, hdr[chain[i]].next)];
            ListOk(hdr', head, chain) && View(hdr', chain) == View(hdr, chain)[i := Block(chain[i], size, free)]
  {
    hide View;
    var hdr' := hdr[chain[i] := KBlock(size, free, hdr[chain[i]].next)];
    assert NodeOk(hdr, chain, i);
    forall j | 0 <= j < |chain| ensures NodeOk(hdr', chain, j) { assert NodeOk(hdr, chain, j); }
    assert View(hdr', chain) == View(hdr, chain)[i := Block(chain[i], size, free)] by {
      forall j | 0 <= j < |chain|
        ensures View(hdr', chain)[j] == View(hdr, chain)[i := Block(chain[i], size, free)][j] {}
    }
  }

  /** block->size += ...; block->next = block->next->next */
  lemma Unlink(hdr: Headers, head: nat, chain: seq<nat>, i: nat)
    requires ListOk(hdr, head, chain) && i + 1 < |chain|
    ensures var a, b := hdr[chain[i]], hdr[chain[i + 1]];
            var hdr' := hdr[chain[i] := KBlock(a.size + HEADER + b.size, true, b.next)];
            var s := View(hdr, chain);
            && ListOk(hdr', head, RemoveAt(chain, i + 1))
            && View(hdr', RemoveAt(chain, i + 1)) == RemoveAt(s, i + 1)[i := Merge(s[i], s[i + 1])]
  {
    hide View, RemoveAt;
    assert NodeOk(hdr, chain, i) && NodeOk(hdr, chain, i + 1);
    var a, b := hdr[chain[i]], hdr[chain[i + 1]];
    var hdr' := hdr[chain[i] := KBlock(a.size + HEADER + b.size, true, b.next)];
    var chain', s := RemoveAt(chain, i + 1), View(hdr, chain);
    forall j | 0 <= j < |chain'| ensures NodeOk(hdr', chain', j) {
      assert NodeOk(hdr, chain, if j <= i then j else j + 1);
      assert j + 1 < |chain'| ==> chain'[j + 1] == if j + 1 <= i then chain[j + 1] else chain[j + 2];
    }
    forall j | 0 <= j < |chain'| ensures View(hdr', chain')[j] == RemoveAt(s, i + 1)[i := Merge(s[i], s[i + 1])][j] {}
  }

  /** A new header at address n, linked in after block i. */
  lemma LinkAfter(hdr: Headers, head: nat, chain: seq<nat>, i: nat, n: nat, first: KBlock, second: KBlock)
    requires ListOk(hdr, head, chain) && i < |chain| && n != 0 && n !in chain
    requires second.next == hdr[chain[i]].next && first.next == n
    ensures var hdr' := hdr[n := second][chain[i] := first];
            && ListOk(hdr', head, InsertAt(chain, i + 1, n))
            && View(hdr', InsertAt(chain, i + 1, n))
               == InsertAt(View(hdr, chain), i + 1, Block(n, second.size, second.free))
                  [i := Block(chain[i], first.size, first.free)]
  {
    hide View, InsertAt;
    assert NodeOk(hdr, chain, i);
    var hdr' := hdr[n := second][chain[i] := first];
    var chain', s := InsertAt(chain, i + 1, n), View(hdr, chain);
    forall j | 0 <= j < |chain'| ensures NodeOk(hdr', chain', j) {
      if j != i + 1 { assert NodeOk(hdr, chain, if j <= i then j else j - 1); }
      assert j + 1 < |chain'| ==> chain'[j + 1] == if j + 1 <= i then chain[j + 1] else if j == i then n else chain[j];
    }
    var t := InsertAt(s, i + 1, Block(n, second.size, second.free))[i := Block(chain[i], first.size, first.free)];
    forall j | 0 <= j < |chain'| ensures View(hdr', chain')[j] == t[j] {
      if j != i + 1 { assert NodeOk(hdr, chain, if j <= i then j else j - 1); }
    }
  }

  /** A new header appended at the end. */
  lemma LinkLast(hdr: Headers, head: nat, chain: seq<nat>, n: nat, b: KBlock)
    requires ListOk(hdr, head, chain) && n != 0 && n !in chain && b.next == 0
    ensures var hdr1 := hdr[n := b];
            var hdr' := if chain == [] then hdr1 else hdr1[chain[|chain| - 1] := hdr[chain[|chain| - 1]].(next := n)];
            && ListOk(hdr', if chain == [] then n else head, chain + [n])
            && View(hdr', chain + [n]) == View(hdr, chain) + [Block(n, b.size, b.free)]
  {
    hide View;
    var hdr1 := hdr[n := b];
    var hdr' := if chain == [] then hdr1 else hdr1[chain[|chain| - 1] := hdr[chain[|chain| - 1]].(next := n)];
    var chain', t := chain + [n], View(hdr, chain) + [Block(n, b.size, b.free)];
    forall j | 0 <= j < |chain| ensures NodeOk(hdr, chain, j) {}
    forall j | 0 <= j < |chain'| ensures NodeOk(hdr', chain', j) {
      if j < |chain| { assert NodeOk(hdr, chain, j); }
    }
    forall j | 0 <= j < |chain'| ensures View(hdr', chain')[j] == t[j] {
      if j < |chain| { assert NodeOk(hdr, chain, j); }
    }
  }

  // ------------------------------------------------------------ blocks in memory

  /** No block reaches into frame p. */
  ghost predicate FrameClear(p: nat, s: seq<Block>) {
    Clear(p * PAGE_SIZE, p * PAGE_SIZE + PAGE_SIZE, s)
  }

  /** No block reaches into a frame the frame allocator may hand out. */
  ghost predicate Held(s: seq<Block>, free: set<nat>) {
    forall p :: p in free ==> FrameClear(p, s)
  }

  /** A run of frames that may all be handed out is clear of the blocks as a whole. */
  lemma {:induction false} ClearRun(s: seq<Block>, free: set<nat>, f: nat, n: nat)
    requires Held(s, free) && RunAt(free, f, n) && n > 0
    ensures Clear(f * PAGE_SIZE, (f + n) * PAGE_SIZE, s)
  {
    if n == 1 {
      assert f in free && FrameClear(f, s);
    } else {
      ClearRun(s, free, f, n - 1);
      assert f + n - 1 in free && FrameClear(f + n - 1, s);
      forall b | b in s ensures (f + n) * PAGE_SIZE <= b.addr || BlockEnd(b) <= f * PAGE_SIZE {}
    }
  }

  lemma WholePages(size: nat)
    ensures ExtentBytes(size) == ExtentBytes(size) / PAGE_SIZE * PAGE_SIZE
  {
    PageRounding((size + HEADER) % U64);
  }

  /** A new extent joins the list. */
  lemma AppendHeld(s: seq<Block>, free: set<nat>, f: nat, n: nat, b: Block)
    requires Held(s, free) && Apart(s) && RunAt(free, f, n) && n > 0 && b.addr == f * PAGE_SIZE
    requires BlockEnd(b) == (f + n) * PAGE_SIZE
    ensures Apart(s + [b]) && Held(s + [b], free - Pages(f, f + n))
    ensures forall c :: c in s ==> c.addr != b.addr
  {
    ClearRun(s, free, f, n);
    forall c | c in s ensures Clear(c.addr, BlockEnd(c), [b]) {}
    ApartConcat(s, [b]);
    forall p | p in free - Pages(f, f + n) ensures FrameClear(p, s + [b]) {
      assert p in free && IsPage(p) && FrameClear(p, s);
    }
  }

  lemma TakeHeld(s: seq<Block>, free: set<nat>, i: nat, size: nat)
    requires Held(s, free) && Apart(s) && i < |s| && size <= s[i].size
    ensures Held(Take(s, i, size), free) && Apart(Take(s, i, size))
  {
    PartsWithin(s[i], size);
    ApartReplace(s, i, Parts(s[i], size));
    forall p | p in free ensures FrameClear(p, Take(s, i, size)) {
      assert FrameClear(p, s);
      ClearReplace(p * PAGE_SIZE, p * PAGE_SIZE + PAGE_SIZE, s, i, Parts(s[i], size));
    }
  }

  lemma SingleWithin(b: Block)
    ensures Within([b.(free := true)], b) && Apart([b.(free := true)])
  {
  }

  lemma FreeClear(s: seq<Block>, p: nat, i: nat)
    requires FrameClear(p, s) && i < |s| && MergesTouch(Freed(s, i))
    ensures FrameClear(p, Free(s, i))
  {
    SingleWithin(s[i]);
    hide Replace, MergesTouch, Coalesce, Within, Apart;
    var m := [s[i].(free := true)];
    ClearReplace(p * PAGE_SIZE, p * PAGE_SIZE + PAGE_SIZE, s, i, m);
    ClearCoalesce(p * PAGE_SIZE, p * PAGE_SIZE + PAGE_SIZE, Replace(s, i, m));
  }

  /** kfree keeps the blocks apart and inside their frames if the merges touch. */
  lemma FreeHeld(s: seq<Block>, free: set<nat>, i: nat)
    requires Held(s, free) && Apart(s) && i < |s| && MergesTouch(Freed(s, i))
    ensures Held(Free(s, i), free) && Apart(Free(s, i))
  {
    var m := [s[i].(free := true)];
    SingleWithin(s[i]);
    hide Apart, Within, Replace, MergesTouch, Coalesce, FrameClear;
    ApartReplace(s, i, m);
    ApartCoalesce(Replace(s, i, m));
    forall p | p in free ensures FrameClear(p, Free(s, i)) { FreeClear(s, p, i); }
  }

  class KernelHeap {
    const pmm: FrameAllocator
    var hdr: Headers
    var head: nat
    var ready: bool
    ghost var chain: seq<nat>
    ghost var taken: nat

    /** The calls since kmalloc_init, and the list before each and after the last. */
    ghost var cs: seq<Call>
    ghost var ss: seq<seq<Block>>

    ghost function Blocks(): seq<Block>
      reads this`hdr, this`chain
    {
      View(hdr, chain)
    }

    /** The headers form a list of disjoint blocks, none in a frame that may be handed out. */
    ghost predicate Formed()
      reads this`hdr, this`head, this`chain, pmm, pmm.bitmap
    {
      pmm.Valid() && ListOk(hdr, head, chain) && Apart(Blocks()) && Held(Blocks(), pmm.free)
    }

    /** Between calls, also: the list is the last state of a run of module Heap, so that
        everything said of the states of such runs is said of it. */
    ghost predicate Valid()
      reads this, pmm, pmm.bitmap
    {
      Formed() && Follows(ss, cs, Blocks(), taken)
    }

    constructor (p: FrameAllocator)
      requires p.Valid()
      ensures Valid() && pmm == p && !ready && Blocks() == [] && taken == 0 && cs == []
    {
      pmm := p;
      hdr := map[];
      head := 0;
      ready := false;
      chain := [];
      taken := 0;
      cs, ss := [], [[]];
    }

    /** split_block, then block->free = 0, on the block at index i. */
    method TakeBlock(block: nat, size: nat, ghost i: nat)
      requires ListOk(hdr, head, chain) && i < |chain| && chain[i] == block && hdr[block].free
      requires size <= hdr[block].size
      requires hdr[block].size - size > HEADER + ALIGN ==> block + HEADER + size !in chain
      modifies this`hdr, this`chain
      ensures ListOk(hdr, head, chain) && Blocks() == Take(old(Blocks()), i, size)
    {
      hide View, InsertAt, Replace;
      ghost var s := Blocks();
      assert NodeOk(hdr, chain, i);
      var remaining := hdr[block].size - size;
      if remaining > HEADER + ALIGN {
        var next: nat := block + HEADER + size;
        ghost var first, second := KBlock(size, true, next), KBlock(remaining - HEADER, true, hdr[block].next);
        LinkAfter(hdr, head, chain, i, next, first, second);
        ghost var was: Headers := hdr;
        hdr := hdr[next := KBlock(remaining - HEADER, true, hdr[block].next)];
        hdr := hdr[block := KBlock(size, true, next)];
        assert hdr == was[next := second][block := first];
        chain := InsertAt(chain, i + 1, next);
        assert ListOk(hdr, head, chain);
        ReplaceTwo(s, i, Block(block, size, false), Block(next, remaining - HEADER, true));
      } else {
        ReplaceOne(s, i, s[i].(free := false));
      }
      SetHeader(hdr, head, chain, i, hdr[block].size, false);
      hdr := hdr[block := KBlock(hdr[block].size, false, hdr[block].next)];
    }

    /** expand_heap: a new extent from the frame allocator becomes the last block. */
    method ExpandHeap(size: nat) returns (block: nat)
      requires Formed() && (ExtentBytes(size) == 0 || HEADER + size <= ExtentBytes(size))
      modifies this`hdr, this`head, this`chain, pmm`freePages, pmm`free, pmm.bitmap
      ensures Formed() && block % PAGE_SIZE == 0 && pmm.free <= old(pmm.free)
      ensures ExtentBytes(size) == 0 ==> block == 0
      ensures Answers(old(pmm.free), ExtentBytes(size) / PAGE_SIZE, block / PAGE_SIZE)
      ensures pmm.free == Without(old(pmm.free), block, ExtentBytes(size))
      ensures block == 0 ==> Blocks() == old(Blocks()) && pmm.freePages == old(pmm.freePages)
      ensures block != 0 ==> chain == old(chain) + [block] && Blocks() == old(Blocks()) + [NewBlock(block, size)]
      ensures block != 0 ==> pmm.freePages == old(pmm.freePages) - ExtentBytes(size) / PAGE_SIZE
    {
      WholePages(size);
      hide Stores, Step, View, Apart, Held, ExtentBytes, ListOk;
      var total := ExtentBytes(size);
      var pages := total / PAGE_SIZE;
      var f := pmm.AllocPages(pages);
      if f == 0 { return 0; }
      block := f * PAGE_SIZE;
      ghost var s := Blocks();
      AppendHeld(s, old(pmm.free), f, pages, NewBlock(block, size));
      forall j | 0 <= j < |chain| ensures chain[j] != block { assert s[j] in s && s[j].addr == chain[j]; }
      LinkExtent(block, total - HEADER);
    }

    /** The new header at the end of the list. */
    method LinkExtent(block: nat, size: nat)
      requires ListOk(hdr, head, chain) && block != 0 && block !in chain
      modifies this`hdr, this`head, this`chain
      ensures ListOk(hdr, head, chain) && chain == old(chain) + [block]
      ensures Blocks() == old(Blocks()) + [Block(block, size, true)]
    {
      hide View;
      LinkLast(hdr, head, chain, block, KBlock(size, true, 0));
      var tail := FindTail();
      hdr := hdr[block := KBlock(size, true, 0)];
      if head == 0 {
        head := block;
      } else {
        hdr := hdr[tail := hdr[tail].(next := block)];
      }
      chain := chain + [block];
    }

    /** The walk to the last block; 0 for an empty list. */
    method FindTail() returns (tail: nat)
      requires ListOk(hdr, head, chain)
      ensures tail == if chain == [] then 0 else chain[|chain| - 1]
    {
      tail := head;
      if head == 0 { return; }
      ghost var i := 0;
      while hdr[tail].next != 0
        invariant i < |chain| && tail == chain[i]
        decreases |chain| - i
      {
        assert NodeOk(hdr, chain, i);
        tail := hdr[tail].next;
        i := i + 1;
      }
      assert NodeOk(hdr, chain, i);
    }

    /** kmalloc. The list becomes what module Heap says, with extent the address of the
        extent that was fetched, or 0: the lowest one the frame allocator has. The run that
        the list follows goes on by this call. */
    method Alloc(request: nat) returns (ptr: nat, ghost extent: nat)
      requires Valid() && (request != 0 ==> ready) && request < U64 && Sane(request)
      modifies this`hdr, this`head, this`chain, this`taken, this`cs, this`ss, pmm`freePages, pmm`free, pmm.bitmap
      ensures Valid() && Allowed(old(Blocks()), KMalloc(request, extent))
      ensures cs == old(cs) + [KMalloc(request, extent)] && ss == old(ss) + [Blocks()]
      ensures Served(old(Blocks()), Blocks(), request, extent, ptr)
      ensures GotExtent(old(Blocks()), old(pmm.free), request, extent, pmm.free)
      ensures Touching(old(Blocks())) && ExtentFollows(old(Blocks()), KMalloc(request, extent)) ==> Touching(Blocks())
      ensures taken == old(taken) + Fetched(old(Blocks()), request, extent)
      ensures pmm.freePages == old(pmm.freePages) - Fetched(old(Blocks()), request, extent) / PAGE_SIZE
    {
      hide Sane, Take, Served, Formed, Follows, Safe, Fetched, AlignBlock, GotExtent, Touching, ExtentFollows;
      ghost var s := Blocks();
      if request == 0 {
        ServedZero(s, pmm.free);
        ptr, extent := 0, 0;
      } else {
        var block;
        ghost var i;
        block, i, extent := Candidate(request);
        ptr := 0;
        if block != 0 {
          HandOut(block, AlignBlock(request), i);
          ptr := block + HEADER;
        }
      }
      ServedIs(s, Blocks(), request, extent, ptr);
      FollowsOn(ss, cs, s, taken, KMalloc(request, extent));
      cs, ss := cs + [KMalloc(request, extent)], ss + [Blocks()];
      taken := taken + Fetched(s, request, extent);
    }

    /** The first free block that fits, or a new extent; 0 when there is neither. */
    method Candidate(request: nat) returns (block: nat, ghost i: nat, ghost extent: nat)
      requires Formed() && 0 < request < U64 && Sane(request)
      modifies this`hdr, this`head, this`chain, pmm`freePages, pmm`free, pmm.bitmap
      ensures Formed() && extent % PAGE_SIZE == 0 && Safe(old(Blocks()), KMalloc(request, extent))
      ensures GotExtent(old(Blocks()), old(pmm.free), request, extent, pmm.free)
      ensures block == 0 ==> Served(old(Blocks()), Blocks(), request, extent, 0)
      ensures block != 0 ==>
                && i < |chain| && chain[i] == block && Fits(Blocks()[i], AlignBlock(request))
                && Served(old(Blocks()), Take(Blocks(), i, AlignBlock(request)), request, extent, block + HEADER)
      ensures pmm.freePages == old(pmm.freePages) - Fetched(old(Blocks()), request, extent) / PAGE_SIZE
    {
      ExtentSaneIff(request);
      hide ExtentBytes, AlignBlock, Sane, FirstFit, Stores, Step, View, Apart, Held, Take, Served, ListOk, Formed;
      extent := 0;
      var size := AlignBlock(request);
      ghost var s := Blocks();
      block, i := FindFit(size);
      if block == 0 {
        block := ExpandHeap(size);
        extent := block;
        if block == 0 {
          ServedNone(s, request);
        } else {
          AppendedClear(Blocks(), s, block, size);
          ServedNew(s, request, extent);
        }
      } else {
        ServedFit(s, request);
      }
    }

    lemma AppendedClear(t: seq<Block>, s: seq<Block>, extent: nat, size: nat)
      requires Formed() && t == Blocks() == s + [NewBlock(extent, size)] && ExtentBytes(size) >= HEADER
      ensures Clear(extent, extent + ExtentBytes(size), s)
    {
      hide ExtentBytes, Apart;
      forall b | b in s ensures extent + ExtentBytes(size) <= b.addr || BlockEnd(b) <= extent {
        var j :| 0 <= j < |s| && s[j] == b;
        ApartPair(t, j, |s|);
      }
    }

    method HandOut(block: nat, size: nat, ghost i: nat)
      requires Formed() && i < |chain| && chain[i] == block && Fits(Blocks()[i], size)
      modifies this`hdr, this`chain
      ensures Formed() && Blocks() == Take(old(Blocks()), i, size)
    {
      hide Stores, View, Apart, Held, Take;
      ghost var s := Blocks();
      if hdr[block].size - size > HEADER + ALIGN {
        forall j | 0 <= j < |chain| ensures chain[j] != block + HEADER + size {
          NoStartInside(s, i, block + HEADER + size, j);
          assert s[j].addr == chain[j];
        }
      }
      TakeHeld(s, pmm.free, i, size);
      TakeBlock(block, size, i);
    }

    /** The loop of kmalloc. */
    method FindFit(size: nat) returns (block: nat, ghost i: nat)
      requires Formed()
      ensures i == FirstFit(Blocks(), size)
      ensures block == At(chain, FirstFit(Blocks(), size)) && (block == 0 <==> FirstFit(Blocks(), size) == |chain|)
    {
      hide View, FirstFit, Stores, Held, Apart;
      block := head;
      i := 0;
      while block != 0
        invariant i <= |chain| && block == At(chain, i)
        invariant forall j :: 0 <= j < i ==> !Fits(Blocks()[j], size)
        decreases |chain| - i
      {
        assert NodeOk(hdr, chain, i) && Blocks()[i] == BlockAt(hdr, chain[i]);
        if hdr[block].free && hdr[block].size >= size { return; }
        block := hdr[block].next;
        i := i + 1;
      }
    }

    /** kfree of a live block. The heap stays well formed, and its run goes on, provided
        every merge joins blocks that touch, as in a heap of blocks that all touch. */
    method Release(ptr: nat, ghost i: nat)
      requires Valid()
      requires ptr != 0 ==> i < |chain| && ptr == chain[i] + HEADER && !Blocks()[i].free
      modifies this`hdr, this`chain, this`cs, this`ss
      ensures ListOk(hdr, head, chain)
      ensures ptr == 0 ==> Blocks() == old(Blocks()) && Valid() && cs == old(cs) && ss == old(ss)
      ensures ptr != 0 ==> Blocks() == Free(old(Blocks()), i)
      ensures ptr != 0 && MergesTouch(Freed(old(Blocks()), i)) ==>
                Valid() && cs == old(cs) + [KFree(i)] && ss == old(ss) + [Blocks()]
      ensures ptr != 0 && Touching(old(Blocks())) ==> MergesTouch(Freed(old(Blocks()), i)) && Touching(Blocks())
    {
      assert ListOk(hdr, head, chain);
      hide Formed, ListOk, View, MergesTouch, Follows, Touching, ExtentFollows, Do, Free, Freed, Total, AllGrown;
      if ptr == 0 { return; }
      ghost var s := Blocks();
      InChain(hdr, chain, i);
      FreeBlock(ptr - HEADER, i);
      FollowsFree(ss, cs, s, taken, i);
      if MergesTouch(Freed(s, i)) {
        cs, ss := cs + [KFree(i)], ss + [Blocks()];
      }
    }

    /** The free flag and the pass over the list. */
    method FreeBlock(block: nat, ghost i: nat)
      requires Formed() && i < |chain| && block == chain[i]
      modifies this`hdr, this`chain
      ensures ListOk(hdr, head, chain) && Blocks() == Free(old(Blocks()), i)
      ensures MergesTouch(Freed(old(Blocks()), i)) ==> Formed()
    {
      hide Stores, View, Apart, Held, MergesTouch;
      ghost var s := Blocks();
      SetHeader(hdr, head, chain, i, hdr[block].size, true);
      ReplaceOne(s, i, s[i].(free := true));
      hdr := hdr[block := hdr[block].(free := true)];
      CoalescePass();
      if MergesTouch(Freed(s, i)) { FreeHeld(s, pmm.free, i); }
    }

    /** kmalloc_init; false is the panic when there is no memory, and a second call does nothing. */
    method Initialize() returns (ok: bool)
      requires Valid() && (ready || Blocks() == [])
      modifies this, pmm`freePages, pmm`free, pmm.bitmap
      ensures Valid() && pmm.free <= old(pmm.free) && (ok <==> ready)
      ensures old(ready) || !ok ==> Blocks() == old(Blocks()) && pmm.freePages == old(pmm.freePages)
      ensures !old(ready) && ok ==> |Blocks()| == 1 && Blocks()[0].addr % PAGE_SIZE == 0
                                    && Blocks() == [NewBlock(Blocks()[0].addr, PAGE_SIZE)]
                                    && taken == ExtentBytes(PAGE_SIZE) && cs == []
    {
      FirstPages();
      hide Formed, View, Follows, Answers, Without, ListOk, ExtentBytes, NewBlock;
      if !ready {
        var block := ExpandHeap(PAGE_SIZE);
        if block == 0 { return false; }
        FollowsStart(block);
        assert Blocks() == [NewBlock(block, PAGE_SIZE)];
        ready := true;
        taken := ExtentBytes(PAGE_SIZE);
        cs, ss := [], [Blocks()];
      }
      ok := true;
    }

    /** coalesce: one pass over the list. */
    method CoalescePass()
      requires ListOk(hdr, head, chain)
      modifies this`hdr, this`chain
      ensures ListOk(hdr, head, chain) && Blocks() == Coalesce(old(Blocks()))
    {
      hide View, RemoveAt, Progress, Coalesce;
      ghost var s0 := Blocks();
      PassStart(s0);
      var block := head;
      ghost var i := 0;
      while block != 0 && hdr[block].next != 0
        invariant ListOk(hdr, head, chain) && i <= |chain| && block == At(chain, i)
        invariant Progress(s0, Blocks(), i)
        decreases |chain| - i
      {
        ghost var s := Blocks();
        assert NodeOk(hdr, chain, i);
        var next := hdr[block].next;
        if hdr[block].free && hdr[next].free {
          PassMerge(s0, s, i);
          Unlink(hdr, head, chain, i);
          hdr := hdr[block := KBlock(hdr[block].size + HEADER + hdr[next].size, true, hdr[next].next)];
          chain := RemoveAt(chain, i + 1);
        } else {
          PassSkip(s0, s, i);
        }
        assert NodeOk(hdr, chain, i);
        block := hdr[block].next;
        i := i + 1;
      }
      assert i < |chain| ==> NodeOk(hdr, chain, i);
      PassEnd(s0, Blocks(), i);
    }

    /** Between any two calls the list in memory has no three free neighbours, no two blocks
        that share a byte, and every byte that was taken from the frame allocator. */
    lemma Kept(i: nat)
      requires Valid()
      ensures Good(Blocks()) && Total(Blocks()) == taken
      ensures i + 2 < |Blocks()| ==> !(Blocks()[i].free && Blocks()[i + 1].free && Blocks()[i + 2].free)
    {
      FollowsKeeps(ss, cs, Blocks(), taken);
      if i + 2 < |Blocks()| { NeverThree(ss, cs, |cs|, i); }
    }

    /** A client's calls: the run that the list follows goes on by each of them. */
    method Replay(ops: seq<Op>) returns (answers: seq<nat>)
      requires Valid() && ready && Behaves(Blocks(), pmm.free, [], ops)
      modifies this`hdr, this`head, this`chain, this`taken, this`cs, this`ss, pmm`freePages, pmm`free, pmm.bitmap
      ensures Valid() && old(cs) <= cs && old(ss) <= ss
    {
      hide Formed, Follows, MergesTouch, Served, GotExtent, Touching, ExtentFollows;
      hide Behaves, Malloc, Free, Freed, IndexOf, View, Sane, Fetched, ListOk;
      answers := [];
      var n := 0;
      while n < |ops|
        invariant 0 <= n <= |ops| && Valid() && ready && Behaves(Blocks(), pmm.free, answers, ops[n..])
        invariant old(cs) <= cs && old(ss) <= ss
      {
        ghost var s, free, rest := Blocks(), pmm.free, ops[n..];
        assert rest[1..] == ops[n + 1..];
        match ops[n] {
          case Ask(size) => {
            AskSane(s, free, answers, rest);
            var ptr;
            ghost var extent;
            ptr, extent := Alloc(size);
            AskBehaves(s, free, answers, rest, extent, Blocks(), ptr, pmm.free);
            answers := answers + [ptr];
          }
          case Return(k) => {
            ReturnBehaves(s, free, answers, rest);
            ghost var i := if answers[k] == 0 then 0 else IndexOf(s, answers[k] - HEADER);
            InChain(hdr, chain, i);
            Release(answers[k], i);
          }
        }
        n := n + 1;
      }
    }
  }

  // ---------------------------------------------------------------- the history

  /** The list s is the last state of a run that the code follows, and taken is what its
      blocks and their headers come to. */
  ghost predicate Follows(ss: seq<seq<Block>>, cs: seq<Call>, s: seq<Block>, taken: nat) {
    && |ss| == |cs| + 1 && Heap.Run(ss, cs) && ss[|cs|] == s
    && taken == Total(ss[0]) + AllGrown(ss, cs, |cs|)
  }

  lemma FollowsKeeps(ss: seq<seq<Block>>, cs: seq<Call>, s: seq<Block>, taken: nat)
    requires Follows(ss, cs, s, taken)
    ensures Good(s) && Total(s) == taken
  {
    RunKeeps(ss, cs, |cs|);
  }

  lemma FirstPages()
    ensures HEADER + PAGE_SIZE <= ExtentBytes(PAGE_SIZE)
  {
    PageRounding(PAGE_SIZE + HEADER);
  }

  lemma FollowsStart(block: nat)
    requires block % PAGE_SIZE == 0
    ensures var s := [NewBlock(block, PAGE_SIZE)]; s[0].addr == block && Follows([s], [], s, ExtentBytes(PAGE_SIZE))
  {
    StartGood(block);
  }

  /** One more safe call. */
  lemma FollowsOn(ss: seq<seq<Block>>, cs: seq<Call>, s: seq<Block>, taken: nat, c: Call)
    requires Follows(ss, cs, s, taken) && Allowed(s, c) && Safe(s, c)
    ensures Follows(ss + [Do(s, c)], cs + [c], Do(s, c), taken + Grown(s, c))
    ensures Touching(s) && ExtentFollows(s, c) ==> Touching(Do(s, c))
  {
    FollowsKeeps(ss, cs, s, taken);
    RunOn(ss, cs, c);
    hide Heap.Run, Good, Allowed, Safe, Do, Touching, ExtentFollows, AllGrown, Grown;
    if Touching(s) && ExtentFollows(s, c) { TilesNext(s, c); }
  }

  lemma TilesNext(s: seq<Block>, c: Call)
    requires Good(s) && Allowed(s, c) && Touching(s) && ExtentFollows(s, c)
    ensures Touching(Do(s, c)) && Safe(s, c)
  {
    TilesStep(s, c);
    TilesSafe(s, c);
  }

  lemma FollowsFree(ss: seq<seq<Block>>, cs: seq<Call>, s: seq<Block>, taken: nat, i: nat)
    requires Follows(ss, cs, s, taken) && i < |s| && !s[i].free
    ensures MergesTouch(Freed(s, i)) ==> Follows(ss + [Free(s, i)], cs + [KFree(i)], Free(s, i), taken)
    ensures Touching(s) ==> MergesTouch(Freed(s, i)) && Touching(Free(s, i))
  {
    FollowsKeeps(ss, cs, s, taken);
    hide Follows, Good, MergesTouch, Touching, Free, Freed;
    if Touching(s) { TilesNext(s, KFree(i)); }
    if MergesTouch(Freed(s, i)) { FollowsOn(ss, cs, s, taken, KFree(i)); }
  }

  // ------------------------------------------------------- the frame allocator

  /** f is what pmm_alloc_pages answers: the lowest run of n frames, or 0. */
  ghost predicate Answers(free: set<nat>, n: nat, f: nat) {
    && (f == 0 <==> n == 0 || forall i :: 1 <= i ==> !RunAt(free, i, n))
    && (f != 0 ==> RunAt(free, f, n) && forall i :: 1 <= i < f ==> !RunAt(free, i, n))
  }

  function Without(free: set<nat>, extent: nat, bytes: nat): set<nat> {
    if extent == 0 then free else free - Pages(extent / PAGE_SIZE, extent / PAGE_SIZE + bytes / PAGE_SIZE)
  }

  /** kmalloc on list s with free frames free fetches extent, 0 for none, and leaves free'. */
  ghost predicate GotExtent(s: seq<Block>, free: set<nat>, request: nat, extent: nat, free': set<nat>) {
    var size := AlignBlock(request);
    if request == 0 || FirstFit(s, size) < |s| then extent == 0 && free' == free
    else
      && extent % PAGE_SIZE == 0 && Answers(free, ExtentBytes(size) / PAGE_SIZE, extent / PAGE_SIZE)
      && free' == Without(free, extent, ExtentBytes(size))
  }

  // ------------------------------------------------------------------- clients

  /** kmalloc of a size, or kfree of the k-th pointer that kmalloc returned. */
  datatype Op = Ask(size: nat) | Return(k: nat)

  /** With the extents that the frame allocator gives, the client asks for sizes that
      kmalloc can round, frees only live pointers, and never has a kfree merge blocks
      that do not touch. */
  ghost predicate Behaves(s: seq<Block>, free: set<nat>, answers: seq<nat>, ops: seq<Op>)
    decreases |ops|
  {
    ops == [] ||
    match ops[0]
    case Ask(size) =>
      && size < U64 && Sane(size)
      && forall extent: nat, free' :: GotExtent(s, free, size, extent, free') ==>
           Behaves(Malloc(s, size, extent).0, free', answers + [Pointer(s, size, extent)], ops[1..])
    case Return(k) =>
      && k < |answers|
      && if answers[k] == 0 then Behaves(s, free, answers, ops[1..])
         else
           && answers[k] >= HEADER
           && var i := IndexOf(s, answers[k] - HEADER);
              i < |s| && !s[i].free && MergesTouch(Freed(s, i)) && Behaves(Free(s, i), free, answers, ops[1..])
  }

  lemma AskSane(s: seq<Block>, free: set<nat>, answers: seq<nat>, ops: seq<Op>)
    requires ops != [] && ops[0].Ask? && Behaves(s, free, answers, ops)
    ensures ops[0].size < U64 && Sane(ops[0].size)
  {
  }

  lemma AskBehaves(s: seq<Block>, free: set<nat>, answers: seq<nat>, ops: seq<Op>, extent: nat, t: seq<Block>, ptr: nat,
                   free': set<nat>)
    requires ops != [] && ops[0].Ask? && Behaves(s, free, answers, ops)
    requires GotExtent(s, free, ops[0].size, extent, free') && Served(s, t, ops[0].size, extent, ptr)
    ensures t == Malloc(s, ops[0].size, extent).0 && Behaves(t, free', answers + [ptr], ops[1..])
  {
    hide Malloc, GotExtent;
    assert ptr == Pointer(s, ops[0].size, extent);
  }

  lemma ReturnBehaves(s: seq<Block>, free: set<nat>, answers: seq<nat>, ops: seq<Op>)
    requires ops != [] && ops[0].Return? && Behaves(s, free, answers, ops)
    ensures ops[0].k < |answers|
    ensures var p := answers[ops[0].k];
            if p == 0 then Behaves(s, free, answers, ops[1..])
            else
              && p >= HEADER
              && var i := IndexOf(s, p - HEADER);
                 && i < |s| && s[i].addr == p - HEADER && !s[i].free && MergesTouch(Freed(s, i))
                 && Behaves(Free(s, i), free, answers, ops[1..])
  {
  }

  /** A kmalloc fetches one extent only, and leaves one set of free frames. */
  lemma AskIs(s: seq<Block>, free: set<nat>, answers: seq<nat>, ops: seq<Op>, extent: nat, free': set<nat>)
    requires ops != [] && ops[0].Ask? && ops[0].size < U64 && Sane(ops[0].size)
    requires GotExtent(s, free, ops[0].size, extent, free')
    ensures var size := ops[0].size;
            Behaves(s, free, answers, ops)
            <==> Behaves(Malloc(s, size, extent).0, free', answers + [Pointer(s, size, extent)], ops[1..])
  {
    var size := ops[0].size;
    hide Malloc, Pointer, Sane, AlignBlock, FirstFit, ExtentBytes, Answers;
    forall e: nat, g | GotExtent(s, free, size, e, g) ensures e == extent && g == free' {
      if !(size == 0 || FirstFit(s, AlignBlock(size)) < |s|) {
        OneAnswer(free, ExtentBytes(AlignBlock(size)) / PAGE_SIZE, e / PAGE_SIZE, extent / PAGE_SIZE);
      }
    }
  }

  lemma OneAnswer(free: set<nat>, n: nat, f: nat, g: nat)
    requires Answers(free, n, f) && Answers(free, n, g)
    ensures f == g
  {
  }

  /** The plainest client of two extents: it behaves exactly if the frame allocator puts the
      second extent behind the first, or has none. */
  lemma TwoExtents(free: set<nat>, f: nat)
    requires Answers(free, 2, f)
    ensures Behaves([Block(0x10000, 8160, true)], free, [], [Ask(8160), Ask(8160), Return(0), Return(1)])
            <==> f == 0 || f == 0x12
  {
    var rest := [Return(0), Return(1)];
    assert [Ask(8160), Ask(8160), Return(0), Return(1)] == [Ask(8160), Ask(8160)] + rest;
    TwoAsks(free, f, rest);
    hide Behaves, Answers, Without;
    TwoReturns(f, Without(free, f * PAGE_SIZE, 0x2000));
  }

  /** The list, and the two answers, after the two calls of kmalloc. */
  function TwoBlocks(f: nat): seq<Block> {
    [Block(0x10000, 8160, false)] + if f == 0 then [] else [Block(f * PAGE_SIZE, 8160, false)]
  }

  function TwoPointers(f: nat): seq<nat> {
    [0x10000 + HEADER, if f == 0 then 0 else f * PAGE_SIZE + HEADER]
  }

  lemma TwoAsks(free: set<nat>, f: nat, rest: seq<Op>)
    requires Answers(free, 2, f)
    ensures Behaves([Block(0x10000, 8160, true)], free, [], [Ask(8160), Ask(8160)] + rest)
            <==> Behaves(TwoBlocks(f), Without(free, f * PAGE_SIZE, 0x2000), TwoPointers(f), rest)
  {
    assert 8160 < U64;
    hide *;
    FirstAsk(free);
    SecondAsk(free, f);
    var s, t := [Block(0x10000, 8160, true)], [Block(0x10000, 8160, false)];
    AskTwice(s, t, TwoBlocks(f), free, Without(free, f * PAGE_SIZE, 0x2000), 8160, f * PAGE_SIZE, TwoPointers(f), rest);
  }

  lemma AskTwice(s: seq<Block>, t: seq<Block>, u: seq<Block>, free: set<nat>, free': set<nat>, size: nat, e: nat,
                 ps: seq<nat>, rest: seq<Op>)
    requires size < U64 && Sane(size) && GotExtent(s, free, size, 0, free) && GotExtent(t, free, size, e, free')
    requires Malloc(s, size, 0).0 == t && Malloc(t, size, e).0 == u
    requires ps == [Pointer(s, size, 0), Pointer(t, size, e)]
    ensures Behaves(s, free, [], [Ask(size), Ask(size)] + rest) <==> Behaves(u, free', ps, rest)
  {
    hide GotExtent, Malloc, Pointer, Sane, Behaves;
    var ops := [Ask(size), Ask(size)] + rest;
    assert ops[1..][1..] == rest;
    AskIs(s, free, [], ops, 0, free);
    AskIs(t, free, [] + ps[..1], ops[1..], e, free');
    assert [] + [Pointer(s, size, 0)] == [] + ps[..1] && [] + ps[..1] + [Pointer(t, size, e)] == ps;
  }

  lemma FirstAsk(free: set<nat>)
    ensures var s, t := [Block(0x10000, 8160, true)], [Block(0x10000, 8160, false)];
            && Sane(8160) && GotExtent(s, free, 8160, 0, free)
            && Malloc(s, 8160, 0).0 == t && Pointer(s, 8160, 0) == 0x10000 + HEADER
  {
  }

  lemma SecondAsk(free: set<nat>, f: nat)
    requires Answers(free, 2, f)
    ensures var s, e: nat := [Block(0x10000, 8160, false)], f * PAGE_SIZE;
            && Sane(8160) && GotExtent(s, free, 8160, e, Without(free, e, 0x2000))
            && Malloc(s, 8160, e).0 == TwoBlocks(f)
            && TwoPointers(f) == [0x10000 + HEADER, Pointer(s, 8160, e)]
  {
    assert AlignBlock(8160) == 8160 && ExtentBytes(8160) == 0x2000;
    hide Answers;
  }

  lemma TwoReturns(f: nat, free: set<nat>)
    ensures Behaves(TwoBlocks(f), free, TwoPointers(f), [Return(0), Return(1)]) <==> f == 0 || f == 0x12
  {
    var s, ps, ops := TwoBlocks(f), TwoPointers(f), [Return(0), Return(1)];
    var t := s[0 := s[0].(free := true)];
    assert ops[1..] == [Return(1)] && IndexOf(s, 0x10000) == 0 && Freed(s, 0) == t;
    NoMerge(t);
    assert Behaves(s, free, ps, ops) <==> Behaves(t, free, ps, ops[1..]);
    if f != 0 { SecondReturn(f, free, t); }
  }

  /** A free block before a live one, or alone, stays as it is. */
  lemma NoMerge(t: seq<Block>)
    requires |t| == 1 || (|t| == 2 && !t[1].free)
    ensures Coalesce(t) == t && MergesTouch(t)
  {
    if |t| == 2 { assert [t[0]] + t[1..] == t; }
  }

  lemma SecondReturn(f: nat, free: set<nat>, t: seq<Block>)
    requires f != 0 && t == [Block(0x10000, 8160, true), Block(f * PAGE_SIZE, 8160, false)]
    ensures Behaves(t, free, TwoPointers(f), [Return(1)]) <==> f == 0x12
  {
    var i := IndexOf(t, f * PAGE_SIZE);
    assert t[1..][0].addr == f * PAGE_SIZE && IndexOf(t[1..], f * PAGE_SIZE) == 0;
    assert i == if f == 0x10 then 0 else 1;
    if i == 1 {
      var u := Freed(t, 1);
      assert u == [t[0], t[1].(free := true)];
      assert MergesTouch(u) <==> BlockEnd(u[0]) == u[1].addr;
    }
  }

  lemma InChain(hdr: Headers, chain: seq<nat>, i: nat)
    ensures |View(hdr, chain)| == |chain| && (i < |chain| ==> View(hdr, chain)[i].addr == chain[i])
  {
  }

  lemma PassStart(s: seq<Block>)
    ensures Progress(s, s, 0)
  {
    assert s[0..] == s;
  }

  /** What kmalloc leaves: the list of module Heap, and a pointer to the payload of a
      block in use that is large enough, or null. Only a request within 15 of 2^64, which
      rounds up to size 0, may get less than it asked for. */
  ghost predicate Served(s: seq<Block>, t: seq<Block>, request: nat, extent: nat, ptr: nat)
    requires request < U64 && Sane(request)
  {
    var (r, i) := Malloc(s, request, extent);
    t == r && (if i < |r|
               then !r[i].free && (request + ALIGN <= U64 ==> r[i].size >= request)
                    && ptr == r[i].addr + HEADER
               else ptr == 0)
  }

  lemma ServedZero(s: seq<Block>, free: set<nat>)
    ensures Sane(0) && Served(s, s, 0, 0, 0) && Safe(s, KMalloc(0, 0)) && GotExtent(s, free, 0, 0, free)
    ensures Fetched(s, 0, 0) == 0
  {
  }

  lemma ServedIs(s: seq<Block>, t: seq<Block>, request: nat, extent: nat, ptr: nat)
    requires request < U64 && Sane(request) && Served(s, t, request, extent, ptr)
    ensures t == Malloc(s, request, extent).0
  {
  }

  lemma ServedNone(s: seq<Block>, request: nat)
    requires request < U64 && Sane(request) && FirstFit(s, AlignBlock(request)) == |s|
    ensures Served(s, s, request, 0, 0)
  {
  }

  lemma ServedFit(s: seq<Block>, request: nat)
    requires 0 < request < U64 && Sane(request) && FirstFit(s, AlignBlock(request)) < |s|
    ensures var i, size := FirstFit(s, AlignBlock(request)), AlignBlock(request);
            Served(s, Take(s, i, size), request, 0, s[i].addr + HEADER)
  {
    BlockRounding(request);
    Handed(s, FirstFit(s, AlignBlock(request)), AlignBlock(request));
  }

  lemma ServedNew(s: seq<Block>, request: nat, extent: nat)
    requires 0 < request < U64 && Sane(request) && FirstFit(s, AlignBlock(request)) == |s| && extent != 0
    requires ExtentBytes(AlignBlock(request)) != 0
    ensures var size := AlignBlock(request);
            && size <= NewBlock(extent, size).size
            && Served(s, Take(s + [NewBlock(extent, size)], |s|, size), request, extent, extent + HEADER)
  {
    BlockRounding(request);
    ExtentSaneIff(request);
    var size := AlignBlock(request);
    Handed(s + [NewBlock(extent, size)], |s|, size);
  }

  /** The block taken at index i is still at index i, in use and large enough. */
  lemma Handed(s: seq<Block>, i: nat, size: nat)
    requires i < |s| && Fits(s[i], size)
    ensures var t := Take(s, i, size); i < |t| && !t[i].free && t[i].addr == s[i].addr && size <= t[i].size
  {
  }

  /** After i turns: the first i blocks are done, the rest is still to be coalesced. */
  ghost predicate Progress(s0: seq<Block>, s: seq<Block>, i: nat) {
    i <= |s| && Coalesce(s0) == s[..i] + Coalesce(s[i..])
  }

  lemma PassSkip(s0: seq<Block>, s: seq<Block>, i: nat)
    requires Progress(s0, s, i) && i + 1 < |s| && !(s[i].free && s[i + 1].free)
    ensures Progress(s0, s, i + 1)
  {
    var r := s[i..];
    assert Coalesce(r) == [s[i]] + Coalesce(r[1..]);
    hide Coalesce;
    assert r[1..] == s[i + 1..];
    assert s[..i + 1] == s[..i] + [s[i]];
    assert s[..i] + ([s[i]] + Coalesce(s[i + 1..])) == s[..i] + [s[i]] + Coalesce(s[i + 1..]);
  }

  lemma PassMerge(s0: seq<Block>, s: seq<Block>, i: nat)
    requires Progress(s0, s, i) && i + 1 < |s| && s[i].free && s[i + 1].free
    ensures Progress(s0, RemoveAt(s, i + 1)[i := Merge(s[i], s[i + 1])], i + 1)
  {
    var r, m := s[i..], Merge(s[i], s[i + 1]);
    var t := RemoveAt(s, i + 1)[i := m];
    assert Coalesce(r) == [m] + Coalesce(r[2..]);
    hide Coalesce;
    assert r[2..] == s[i + 2..];
    assert t[i + 1..] == s[i + 2..];
    assert t[..i + 1] == s[..i] + [m];
    assert s[..i] + ([m] + Coalesce(s[i + 2..])) == s[..i] + [m] + Coalesce(s[i + 2..]);
  }

  lemma PassEnd(s0: seq<Block>, s: seq<Block>, i: nat)
    requires Progress(s0, s, i) && |s| <= i + 1
    ensures s == Coalesce(s0)
  {
    assert Coalesce(s[i..]) == s[i..];
    assert s[..i] + s[i..] == s;
  }

  // -------------------------------------------------------- a merge across a gap

  /** The failing run of module Heap, in memory: after its fifth call the headers are a
      list of two blocks; the two stores that split_block makes in the sixth call turn
      the header of the live block into a free one that links to itself. */
  lemma GapCycle()
    ensures var hdr: Headers := map[0x10000 := KBlock(16352, true, 0x12000), 0x12000 := KBlock(8160, false, 0)];
            && ListOk(hdr, 0x10000, [0x10000, 0x12000]) && View(hdr, [0x10000, 0x12000]) == GapStates()[5]
            && var hdr' := hdr[0x12000 := KBlock(8160, true, hdr[0x10000].next)]
                           [0x10000 := KBlock(8160, true, 0x12000)];
               hdr'[0x12000].free && hdr'[0x12000].next == 0x12000
  {
    var hdr: Headers := map[0x10000 := KBlock(16352, true, 0x12000), 0x12000 := KBlock(8160, false, 0)];
    var chain: seq<nat> := [0x10000, 0x12000];
    assert NodeOk(hdr, chain, 0) && NodeOk(hdr, chain, 1);
    assert View(hdr, chain) == GapStates()[5];
  }

  // ------------------------------------------------------------ a size that wraps

  /** Memory as 64-bit words at their addresses, for headers that overlap: size is the word
      at offset 0 of a header, free is in the one at 8, next the one at 16. */
  type WordMap = map<nat, nat>

  /** The stores of split_block, in their order and in 64-bit arithmetic. */
  function SplitStores(m: WordMap, block: nat, size: nat): WordMap
    requires block in m && block + 16 in m
  {
    var remaining := (m[block] + U64 - size % U64) % U64;
    if remaining <= HEADER + ALIGN then m
    else
      var next := (block + HEADER + size) % U64;
      var m1 := m[next := (remaining - HEADER) % U64][next + 8 := 1];
      var m2 := m1[next + 16 := m1[block + 16]];
      m2[block := size][block + 16 := next]
  }

  /** The one size for which kmalloc gets an extent that is too small, 2^64 - 16: the new
      header lies 16 bytes into the old one. The list goes on to a free block whose size is
      its own address, and from there to address 4048, where there is no header. */
  lemma WrappedSplit(m: WordMap, block: nat)
    requires block in m && block + 16 in m && m[block] == PAGE_SIZE - HEADER && block + PAGE_SIZE < U64
    ensures var r, n := SplitStores(m, block, U64 - 16), block + 16;
            && r.Keys >= {block, n, n + 8, n + 16} && r[block] == U64 - 16 && r[block + 16] == n
            && r[n] == n && r[n + 8] == 1 && r[n + 16] == PAGE_SIZE - 48
  {
  }
}
