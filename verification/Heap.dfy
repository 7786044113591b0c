/**
 The subpage heap as a whole: the pagerefs in use, the per-size lists and the
 list of all pages, and what every locked section of kmalloc keeps.
 */
module Heap {
  import opened Basics
  import opened HeapMemory
  import opened HeapPage
  import opened HeapBlocks

  /**
   mem is kernel memory; refs the pagerefs in use, by number; sizes and all the lists hung off
   sizebases[] and allbase. free and live describe each page's blocks: its chain, and the
   recorded size of every block handed out.
   */
  datatype Heap = Heap(
    mem: seq<Byte>,
    refs: map<nat, PageRef>,
    sizes: seq<seq<nat>>,
    all: seq<nat>,
    free: map<nat, seq<nat>>,
    live: map<nat, map<nat, nat>>)

  // Both families of lists hold exactly the pagerefs in use, each once.
  ghost predicate ListsOk(h: Heap) {
    && |h.sizes| == NSIZES
    && Distinct(h.all)
    && (forall t: Kind :: Distinct(h.sizes[t]))
    && (forall p: nat :: p in h.all <==> p in h.refs)
    && (forall t: Kind, p: nat :: p in h.sizes[t] <==> p in h.refs && h.refs[p].Tag() == t)
  }

  ghost predicate PagesOk(h: Heap) {
    && h.free.Keys == h.refs.Keys && h.live.Keys == h.refs.Keys
    && (forall p: nat | p in h.refs :: PageOk(h.mem, h.refs[p], h.free[p], h.live[p]))
    && (forall p: nat, q: nat | p in h.refs && q in h.refs && p != q :: h.refs[p].Addr() != h.refs[q].Addr())
  }

  ghost predicate HeapOk(h: Heap) {
    ListsOk(h) && PagesOk(h)
  }

  // A block number p/b that is currently handed out.
  ghost predicate IsLive(h: Heap, p: nat, b: nat) {
    p in h.refs && p in h.live && b in h.live[p]
  }

  lemma AlignedAddr(r: PageRef)
    ensures r.Addr() % PAGE_SIZE == 0
  {}

  lemma AlignedApart(x: nat, y: nat)
    requires x % PAGE_SIZE == 0 && y % PAGE_SIZE == 0 && x != y
    ensures x + PAGE_SIZE <= y || y + PAGE_SIZE <= x
  {}

  // Pages of the heap do not overlap.
  lemma PagesApart(h: Heap, p: nat, q: nat)
    requires PagesOk(h) && p in h.refs && q in h.refs && p != q
    ensures h.refs[p].Addr() + PAGE_SIZE <= h.refs[q].Addr() || h.refs[q].Addr() + PAGE_SIZE <= h.refs[p].Addr()
  {
    hide PageOk, PageRef.Addr;
    AlignedAddr(h.refs[p]);
    AlignedAddr(h.refs[q]);
    AlignedApart(h.refs[p].Addr(), h.refs[q].Addr());
  }

  /**
   Any two blocks handed out are disjoint; each lies inside its page, aligned to its size,
   and is big enough for what it records.
   */
  lemma LiveBlocksDisjoint(h: Heap, p: nat, b: nat, q: nat, c: nat)
    requires HeapOk(h) && IsLive(h, p, b) && IsLive(h, q, c) && (p != q || b != c)
    ensures var r, s := h.refs[p], h.refs[q];
            && r.Tag() < NSIZES && s.Tag() < NSIZES
            && r.Addr() <= BlockAddr(r, b) && BlockAddr(r, b) + BlockSize(r.Tag()) <= r.Addr() + PAGE_SIZE
            && (BlockAddr(r, b) - r.Addr()) % BlockSize(r.Tag()) == 0
            && h.live[p][b] + GUARD_OVERHEAD <= BlockSize(r.Tag())
            && (BlockAddr(r, b) + BlockSize(r.Tag()) <= BlockAddr(s, c)
              || BlockAddr(s, c) + BlockSize(s.Tag()) <= BlockAddr(r, b))
  {
    hide NumBlocks, Guarded, SmallerSize, ListsOk, BlockSize, FreeBlockOk, PageRef.Addr, PageRef.Tag;
    var r, s := h.refs[p], h.refs[q];
    assert PageOk(h.mem, r, h.free[p], h.live[p]) && PageOk(h.mem, s, h.free[q], h.live[q]);
    assert LiveBlockOk(h.mem, r, b, h.live[p][b]);
    BlockInPage(r, b);
    BlockInPage(s, c);
    if p == q {
      BlocksApart(r, b, c);
    } else {
      PagesApart(h, p, q);
    }
  }

  // ---------------------------------------------------------------- the locked sections

  // Rewriting one page, inside its own bounds, and its bookkeeping.
  function WithPage(h: Heap, m': seq<Byte>, p: nat, r: PageRef, free: seq<nat>, live: map<nat, nat>): Heap {
    h.(mem := m', refs := h.refs[p := r], free := h.free[p := free], live := h.live[p := live])
  }

  lemma WithPageKeeps(h: Heap, m': seq<Byte>, p: nat, r: PageRef, free: seq<nat>, live: map<nat, nat>)
    requires HeapOk(h) && p in h.refs && h.refs[p].pab == r.pab
    requires SameOutside(h.mem, m', r.Addr(), r.Addr() + PAGE_SIZE)
    requires PageOk(m', r, free, live)
    ensures HeapOk(WithPage(h, m', p, r, free, live))
  {
    hide PageOk, PageRef.Addr, PageRef.Tag, ListsOk;
    var h' := WithPage(h, m', p, r, free, live);
    SameWord(r, h.refs[p]);
    ListsSame(h, h');
    forall q: nat | q in h'.refs
      ensures PageOk(m', h'.refs[q], h'.free[q], h'.live[q])
    {
      if q != p {
        OtherPage(h, m', p, q, r.Addr());
      }
    }
  }

  // The lists only care which pagerefs are in use and what they are tagged with.
  lemma ListsSame(h: Heap, h': Heap)
    requires ListsOk(h) && h'.sizes == h.sizes && h'.all == h.all && h'.refs.Keys == h.refs.Keys
    requires forall p: nat | p in h.refs :: h'.refs[p].Tag() == h.refs[p].Tag()
    ensures ListsOk(h')
  {
    hide PageRef.Tag, Distinct;
  }

  lemma SameWord(r: PageRef, s: PageRef)
    requires r.pab == s.pab
    ensures r.Addr() == s.Addr() && r.Tag() == s.Tag()
  {}

  lemma OtherPage(h: Heap, m': seq<Byte>, p: nat, q: nat, addr: nat)
    requires PagesOk(h) && p in h.refs && q in h.refs && p != q && addr == h.refs[p].Addr()
    requires SameOutside(h.mem, m', addr, addr + PAGE_SIZE)
    ensures PageOk(m', h.refs[q], h.free[q], h.live[q])
  {
    hide FreeBlockOk, LiveBlockOk, PageRef.Addr, PageRef.Tag, Partition, ChainShape, HeadOffset;
    PagesApart(h, p, q);
    assert PageOk(h.mem, h.refs[q], h.free[q], h.live[q]);
    PageFrame(h.mem, m', h.refs[q], h.free[q], h.live[q]);
  }

  // Handing out the head of p's chain, with cs bytes recorded for it.
  ghost predicate AllocStep(h: Heap, h': Heap, p: nat, cs: nat) {
    && p in h.refs && p in h.free && p in h.live && |h.free[p]| > 0
    && h.refs[p].nfree > 0 && h.refs[p].Tag() < NSIZES
    && var b, r := h.free[p][0], h.refs[p];
       && h' == WithPage(h, h'.mem, p, PopRef(r, h.free[p]), h.free[p][1..], h.live[p][b := cs])
       && SameOutside(h.mem, h'.mem, BlockAddr(r, b), BlockAddr(r, b) + BlockSize(r.Tag()))
       && b !in h.live[p]
       && SmallerSize(r.Tag()) < cs + GUARD_OVERHEAD <= BlockSize(r.Tag())
       && BlockAddr(r, b) + BlockSize(r.Tag()) <= |h'.mem|
       && Guarded(h'.mem, BlockAddr(r, b), cs, BlockSize(r.Tag()))
  }

  // Taking block p/b back when other blocks of the page are still out.
  ghost predicate FreeStep(h: Heap, h': Heap, p: nat, b: nat) {
    && p in h.refs && p in h.free && p in h.live && b in h.live[p] && h.refs[p].Tag() < NSIZES
    && h.live[p].Keys != {b}
    && var r := h.refs[p];
       && h' == WithPage(h, h'.mem, p, PushRef(r, b), [b] + h.free[p], h.live[p] - {b})
       && SameOutside(h.mem, h'.mem, BlockAddr(r, b), BlockAddr(r, b) + BlockSize(r.Tag()))
       && BlockAddr(r, b) + BlockSize(r.Tag()) <= |h'.mem|
       && Beef(h'.mem, BlockAddr(r, b), BlockSize(r.Tag()))
       && Load32(h'.mem, BlockAddr(r, b)) == if |h.free[p]| == 0 then 0 else BlockAddr(r, h.free[p][0])
  }

  // remove_lists, on one list.
  function RemoveFrom(s: seq<nat>, p: nat): seq<nat> {
    if |s| == 0 then []
    else if s[0] == p then s[1..]
    else [s[0]] + RemoveFrom(s[1..], p)
  }

  lemma {:induction false} RemoveFromOk(s: seq<nat>, p: nat)
    requires Distinct(s)
    ensures Distinct(RemoveFrom(s, p)) && p !in RemoveFrom(s, p)
    ensures forall q: nat | q != p :: q in RemoveFrom(s, p) <==> q in s
  {
    if |s| > 0 {
      var t := s[1..];
      assert s == [s[0]] + t;
      RemoveFromOk(t, p);
      assert Distinct(t) && s[0] !in t;
      if s[0] != p {
        assert s[0] !in RemoveFrom(t, p);
      }
    }
  }

  // Taking back the last block: the page leaves both lists and its pageref is released.
  ghost predicate DropStep(h: Heap, h': Heap, p: nat, b: nat) {
    && p in h.refs && p in h.free && p in h.live && h.live[p].Keys == {b} && h.refs[p].Tag() < NSIZES == |h.sizes|
    && var r := h.refs[p];
       && h' == h.(mem := h'.mem, refs := h.refs - {p}, free := h.free - {p}, live := h.live - {p},
                   all := RemoveFrom(h.all, p), sizes := h.sizes[r.Tag() := RemoveFrom(h.sizes[r.Tag()], p)])
       && SameOutside(h.mem, h'.mem, r.Addr(), r.Addr() + PAGE_SIZE)
  }

  // A fresh page joins both lists at the front.
  ghost predicate NewPageStep(h: Heap, h': Heap, p: nat, page: nat, kind: Kind) {
    && p !in h.refs && |h.sizes| == NSIZES
    && (forall q: nat | q in h.refs :: h.refs[q].Addr() != page)
    && h' == h.(mem := h'.mem, refs := h'.refs, free := h.free[p := Down(NumBlocks(kind))], live := h.live[p := map[]],
                all := [p] + h.all, sizes := h.sizes[kind := [p] + h.sizes[kind]])
    && p in h'.refs && h'.refs == h.refs[p := h'.refs[p]]
    && h'.refs[p].Addr() == page && h'.refs[p].Tag() == kind
    && SameOutside(h.mem, h'.mem, page, page + PAGE_SIZE)
    && PageOk(h'.mem, h'.refs[p], Down(NumBlocks(kind)), map[])
  }

  // A client stores a byte inside the cs bytes recorded for a block it holds.
  ghost predicate WriteStep(h: Heap, h': Heap, p: nat, b: nat, i: nat, x: Byte) {
    && IsLive(h, p, b) && h.refs[p].Tag() < NSIZES
    && BlockAddr(h.refs[p], b) + 4 <= i < BlockAddr(h.refs[p], b) + 4 + h.live[p][b]
    && i < |h.mem| && h' == h.(mem := h.mem[i := x])
  }

  lemma ChainBlockInPage(h: Heap, p: nat, b: nat)
    requires PagesOk(h) && p in h.refs && h.refs[p].Tag() < NSIZES && b < NumBlocks(h.refs[p].Tag())
    ensures BlockAddr(h.refs[p], b) + BlockSize(h.refs[p].Tag()) <= h.refs[p].Addr() + PAGE_SIZE <= |h.mem|
    ensures h.refs[p].Addr() <= BlockAddr(h.refs[p], b)
  {
    hide PageRef.Addr, PageRef.Tag, FreeBlockOk, LiveBlockOk, Partition, ChainShape, HeadOffset, BlockSize, NumBlocks;
    assert PageOk(h.mem, h.refs[p], h.free[p], h.live[p]);
    BlockInPage(h.refs[p], b);
  }

  lemma AllocKeeps(h: Heap, h': Heap, p: nat, cs: nat)
    requires HeapOk(h) && AllocStep(h, h', p, cs)
    ensures HeapOk(h') && IsLive(h', p, h.free[p][0])
  {
    hide FreeBlockOk, LiveBlockOk, PageRef.Addr, PageRef.Tag, BlockAddr, BlockSize, NumBlocks, Guarded, SmallerSize,
         Distinct;
    var r, b := h.refs[p], h.free[p][0];
    assert PageOk(h.mem, r, h.free[p], h.live[p]);
    PopKeeps(h.mem, h'.mem, r, h.free[p], h.live[p], cs);
    ChainBlockInPage(h, p, b);
    SameWord(r, PopRef(r, h.free[p]));
    WithPageKeeps(h, h'.mem, p, PopRef(r, h.free[p]), h.free[p][1..], h.live[p][b := cs]);
  }

  lemma FreeKeeps(h: Heap, h': Heap, p: nat, b: nat)
    requires HeapOk(h) && FreeStep(h, h', p, b)
    ensures HeapOk(h') && !IsLive(h', p, b)
  {
    hide FreeBlockOk, LiveBlockOk, PageRef.Addr, PageRef.Tag, BlockAddr, BlockSize, NumBlocks, Distinct, HeadOffset;
    var r := h.refs[p];
    assert PageOk(h.mem, r, h.free[p], h.live[p]);
    ChainBlockInPage(h, p, b);
    PushKeeps(h.mem, h'.mem, r, h.free[p], h.live[p], b);
    SameWord(r, PushRef(r, b));
    WithPageKeeps(h, h'.mem, p, PushRef(r, b), [b] + h.free[p], h.live[p] - {b});
  }

  lemma DropKeeps(h: Heap, h': Heap, p: nat, b: nat)
    requires HeapOk(h) && DropStep(h, h', p, b)
    ensures HeapOk(h')
  {
    hide PageOk, PageRef.Addr, PageRef.Tag, Distinct;
    DropLists(h, h', p);
    forall q: nat | q in h'.refs
      ensures PageOk(h'.mem, h'.refs[q], h'.free[q], h'.live[q])
    {
      OtherPage(h, h'.mem, p, q, h.refs[p].Addr());
    }
  }

  lemma DropLists(h: Heap, h': Heap, p: nat)
    requires ListsOk(h) && p in h.refs && h.refs[p].Tag() < NSIZES && h'.refs == h.refs - {p}
    requires h'.all == RemoveFrom(h.all, p)
    requires h'.sizes == h.sizes[h.refs[p].Tag() := RemoveFrom(h.sizes[h.refs[p].Tag()], p)]
    ensures ListsOk(h')
  {
    hide PageRef.Tag, Distinct, RemoveFrom;
    var t0: Kind := h.refs[p].Tag();
    RemoveFromOk(h.all, p);
    RemoveFromOk(h.sizes[t0], p);
    forall t: Kind, q: nat
      ensures q in h'.sizes[t] <==> q in h'.refs && h'.refs[q].Tag() == t
    {
      assert q in h.sizes[t] <==> q in h.refs && h.refs[q].Tag() == t;
    }
  }

  lemma NewPageKeeps(h: Heap, h': Heap, p: nat, page: nat, kind: Kind)
    requires HeapOk(h) && NewPageStep(h, h', p, page, kind)
    ensures HeapOk(h')
  {
    hide PageOk, PageRef.Addr, PageRef.Tag, Distinct, Down;
    NewLists(h, h', p, kind);
    assert page % PAGE_SIZE == 0 by {
      AlignedAddr(h'.refs[p]);
    }
    forall q: nat | q in h'.refs
      ensures PageOk(h'.mem, h'.refs[q], h'.free[q], h'.live[q])
    {
      if q != p {
        assert PageOk(h.mem, h.refs[q], h.free[q], h.live[q]);
        AlignedAddr(h.refs[q]);
        AlignedApart(h.refs[q].Addr(), page);
        UntouchedPage(h.mem, h'.mem, h.refs[q], h.free[q], h.live[q], page);
      }
    }
  }

  lemma UntouchedPage(m: seq<Byte>, m': seq<Byte>, r: PageRef, free: seq<nat>, live: map<nat, nat>, page: nat)
    requires PageOk(m, r, free, live) && SameOutside(m, m', page, page + PAGE_SIZE)
    requires r.Addr() + PAGE_SIZE <= page || page + PAGE_SIZE <= r.Addr()
    ensures PageOk(m', r, free, live)
  {
    hide FreeBlockOk, LiveBlockOk, PageRef.Addr, PageRef.Tag, Partition, ChainShape, HeadOffset;
    PageFrame(m, m', r, free, live);
  }

  lemma NewLists(h: Heap, h': Heap, p: nat, kind: Kind)
    requires ListsOk(h) && p !in h.refs && p in h'.refs && h'.refs == h.refs[p := h'.refs[p]]
             && h'.refs[p].Tag() == kind
    requires h'.all == [p] + h.all && h'.sizes == h.sizes[kind := [p] + h.sizes[kind]]
    ensures ListsOk(h')
  {
    hide PageRef.Tag;
    forall t: Kind, q: nat
      ensures q in h'.sizes[t] <==> q in h'.refs && h'.refs[q].Tag() == t
    {
      assert q in h.sizes[t] <==> q in h.refs && h.refs[q].Tag() == t;
    }
    assert p !in h.sizes[kind] && p !in h.all;
    forall t: Kind
      ensures Distinct(h'.sizes[t])
    {
      assert Distinct(h.sizes[t]);
    }
  }

  // A client that writes only its own bytes never upsets the allocator.
  lemma WriteKeeps(h: Heap, h': Heap, p: nat, b: nat, i: nat, x: Byte)
    requires HeapOk(h) && WriteStep(h, h', p, b, i, x)
    ensures HeapOk(h')
  {
    hide FreeBlockOk, PageRef.Addr, PageRef.Tag, BlockAddr, BlockSize, NumBlocks, Distinct, HeadOffset, Guarded,
         SmallerSize;
    var r := h.refs[p];
    assert PageOk(h.mem, r, h.free[p], h.live[p]);
    assert LiveBlockOk(h.mem, r, b, h.live[p][b]);
    ChainBlockInPage(h, p, b);
    WriteKeepsPage(h.mem, h'.mem, r, h.free[p], h.live[p], b, i, x);
    WithPageKeeps(h, h'.mem, p, r, h.free[p], h.live[p]);
    assert h' == WithPage(h, h'.mem, p, r, h.free[p], h.live[p]) by {
      assert h.refs[p := r] == h.refs && h.free[p := h.free[p]] == h.free && h.live[p := h.live[p]] == h.live;
    }
  }

  lemma WriteKeepsPage(m: seq<Byte>, m': seq<Byte>, r: PageRef, free: seq<nat>, live: map<nat, nat>, b: nat, i: nat,
        x: Byte)
    requires PageOk(m, r, free, live) && b in live && i < |m| && m' == m[i := x]
    requires BlockAddr(r, b) + 4 <= i < BlockAddr(r, b) + 4 + live[b]
    ensures PageOk(m', r, free, live)
  {
    hide PageRef.Addr, PageRef.Tag, BlockAddr, BlockSize, NumBlocks, Distinct, HeadOffset, Guarded, SmallerSize, Beef;
    assert LiveBlockOk(m, r, b, live[b]);
    BlockInPage(r, b);
    assert SameOutside(m, m', BlockAddr(r, b), BlockAddr(r, b) + BlockSize(r.Tag()));
    forall j | 0 <= j < |free|
      ensures FreeBlockOk(m', r, free, j)
    {
      assert FreeBlockOk(m, r, free, j);
      OutsideBlock(m, m', r, b, free[j]);
      FreeBlockFrame(m, m', r, free, j);
    }
    forall c: nat | c in live
      ensures LiveBlockOk(m', r, c, live[c])
    {
      assert LiveBlockOk(m, r, c, live[c]);
      if c == b {
        ClientWriteKeepsGuards(m, BlockAddr(r, b), live[b], BlockSize(r.Tag()), i, x);
      } else {
        OutsideBlock(m, m', r, b, c);
        LiveBlockFrame(m, m', r, c, live[c]);
      }
    }
  }

  // ---------------------------------------------------------------- counting the lists

  // What checksubpages counts: the per-size lists together are as long as the list of all pages.
  lemma ListsAgree(h: Heap)
    requires HeapOk(h)
    ensures TotalLength(h.sizes, NSIZES) == |h.all|
  {
    hide PageRef.Tag, Distinct, FreeBlockOk, LiveBlockOk, HeadOffset, Partition, ChainShape;
    forall p: nat | p in h.refs
      ensures h.refs[p].Tag() < NSIZES
    {
      assert PageOk(h.mem, h.refs[p], h.free[p], h.live[p]);
    }
    SeqAsSet(h.all);
    TotalIs(h, NSIZES);
    assert Tagged(h, NSIZES) == Elements(h.all);
  }

  function TotalLength(s: seq<seq<nat>>, n: nat): nat
    requires n <= |s|
  {
    if n == 0 then 0 else TotalLength(s, n - 1) + |s[n - 1]|
  }

  // The pagerefs in use whose block type is below n.
  function Tagged(h: Heap, n: nat): set<nat> {
    set p | p in h.all && p in h.refs && h.refs[p].Tag() < n
  }

  // The pagerefs of one more class are those of its list, and none of the smaller classes.
  lemma TaggedNext(h: Heap, t: Kind)
    requires ListsOk(h)
    ensures Tagged(h, t + 1) == Tagged(h, t) + Elements(h.sizes[t]) && Tagged(h, t) !! Elements(h.sizes[t])
  {
    hide PageRef.Tag, Distinct;
    assert forall p: nat :: p in h.sizes[t] <==> p in h.refs && h.refs[p].Tag() == t;
  }

  lemma {:induction false} TotalIs(h: Heap, n: nat)
    requires ListsOk(h) && n <= NSIZES
    ensures TotalLength(h.sizes, n) == |Tagged(h, n)|
  {
    hide PageRef.Tag, Distinct;
    if n == 0 {
      assert Tagged(h, 0) == {};
    } else {
      var t: Kind := n - 1;
      TotalIs(h, n - 1);
      assert Distinct(h.sizes[t]);
      SeqAsSet(h.sizes[t]);
      TaggedNext(h, t);
      hide Tagged, Elements;
      assert |Tagged(h, n)| == |Tagged(h, n - 1)| + |Elements(h.sizes[t])|;
    }
  }
}
