/**
 kmalloc and kfree seen from outside: which requests get the bytes they ask for,
 and freeing as the inverse of allocating.
 */
module Kmalloc {
  import opened Basics
  import opened HeapMemory
  import opened HeapPage
  import opened HeapBlocks
  import opened Heap
  import opened PageRefs
  import opened HeapSystem

  // What kmalloc decides to do: a block of a class, recording cs bytes, or whole pages.
  datatype Plan = Subpage(kind: Kind, cs: nat) | Pages(n: nat)

  function Class(sz: nat): (k: Kind)
    requires sz <= LARGEST_SUBPAGE_SIZE
    ensures sz <= BlockSize(k) && forall j: Kind | sz <= BlockSize(j) :: k <= j
  {
    if sz <= 16 then 0 else if sz <= 32 then 1 else if sz <= 64 then 2 else if sz <= 128 then 3
    else if sz <= 256 then 4 else if sz <= 512 then 5 else if sz <= 1024 then 6 else 7
  }

  /**
   The size arithmetic of kmalloc and subpage_kmalloc, in 32-bit size_t. The client gets the bytes
   it asked for exactly when rounding them up to pages does not overflow; then a block is of the
   smallest class that holds request, label and guards, and whole pages are as few as will do.
   */
  method PlanRequest(sz: nat) returns (plan: Plan)
    requires sz < WORD_LIMIT
    ensures plan == PlanOf(sz)
    ensures Room(plan) >= sz ==> (plan.Subpage? <==> sz + LABEL_PTROFFSET + GUARD_OVERHEAD < BlockSize(NSIZES - 1))
    ensures Room(plan) >= sz <==> sz <= WORD_LIMIT - PAGE_SIZE
    ensures plan.Subpage? && Room(plan) >= sz ==>
              plan.cs == sz + LABEL_PTROFFSET && forall k: Kind | plan.cs + GUARD_OVERHEAD <= BlockSize(k) ::
                plan.kind <= k
    ensures plan.Pages? && Room(plan) >= sz ==> plan.n * PAGE_SIZE < sz + PAGE_SIZE
  {
    RequestFits(sz);
    var checksz := (sz + GUARD_OVERHEAD + LABEL_PTROFFSET) % WORD_LIMIT;
    if checksz >= LARGEST_SUBPAGE_SIZE {
      var npages := ((sz + PAGE_SIZE - 1) % WORD_LIMIT) / PAGE_SIZE;
      return Pages(npages);
    }
    var clientsz := (sz + LABEL_PTROFFSET) % WORD_LIMIT;
    var blktype := BlockType(checksz);
    return Subpage(blktype.value, clientsz);
  }

  function PlanOf(sz: nat): Plan {
    var checksz := (sz + 16) % WORD_LIMIT;
    if checksz < LARGEST_SUBPAGE_SIZE then Subpage(Class(checksz), (sz + 8) % WORD_LIMIT)
    else Pages((sz + PAGE_SIZE - 1) % WORD_LIMIT / PAGE_SIZE)
  }

  // The bytes a client may use from the returned pointer on.
  function Room(plan: Plan): int {
    match plan
    case Subpage(kind, _) => BlockSize(kind) - GUARD_OVERHEAD - LABEL_PTROFFSET
    case Pages(n) => n * PAGE_SIZE
  }

  /**
   A request gets at least the bytes it asks for exactly when rounding it up to whole pages
   does not overflow a size_t; then a block's recorded size is the request plus its label,
   in the smallest class that holds it.
   */
  lemma RequestFits(sz: nat)
    requires sz < WORD_LIMIT
    ensures Room(PlanOf(sz)) >= sz <==> sz <= WORD_LIMIT - PAGE_SIZE
    ensures sz <= WORD_LIMIT - PAGE_SIZE ==>
              (PlanOf(sz).Subpage? <==> sz + LABEL_PTROFFSET + GUARD_OVERHEAD < BlockSize(NSIZES - 1))
    ensures sz <= WORD_LIMIT - PAGE_SIZE ==>
              match PlanOf(sz)
              case Subpage(kind, cs) => cs == sz + LABEL_PTROFFSET
                && SmallerSize(kind) < cs + GUARD_OVERHEAD <= BlockSize(kind)
              case Pages(n) => sz <= n * PAGE_SIZE < sz + PAGE_SIZE
  {
    var checksz := (sz + 16) % WORD_LIMIT;
    if sz + 16 >= WORD_LIMIT {
      assert checksz == sz + 16 - WORD_LIMIT;
    } else {
      assert checksz == sz + 16;
    }
  }

  // Requests near the top of the size range are given far too little.
  lemma HugeRequestWraps()
    ensures PlanOf(WORD_LIMIT - 1) == Subpage(0, 7)
    ensures PlanOf(WORD_LIMIT - PAGE_SIZE + 1) == Pages(0)
  {}

  // ---------------------------------------------------------------- kfree undoes kmalloc

  // The client may have written anything at all inside its block, nothing outside it.
  ghost predicate ClientRan(h: Heap, h': Heap, p: nat, b: nat) {
    && p in h.refs && h.refs[p].Tag() < NSIZES && h' == h.(mem := h'.mem)
    && SameOutside(h.mem, h'.mem, BlockAddr(h.refs[p], b), BlockAddr(h.refs[p], b) + BlockSize(h.refs[p].Tag()))
  }

  /**
   Freeing a block straight after it was handed out, whatever the client stored in it, gives
   back the same heap byte for byte: chain, counts, lists and memory.
   */
  lemma FreeUndoesAlloc(h: Heap, h1: Heap, h2: Heap, h3: Heap, p: nat, cs: nat)
    requires HeapOk(h) && AllocStep(h, h1, p, cs)
    requires ClientRan(h1, h2, p, h.free[p][0]) && FreeStep(h2, h3, p, h.free[p][0])
    ensures h3 == h
  {
    hide LiveBlockOk, FreeBlockOk, PageRef.Addr, PageRef.Tag, BlockAddr, BlockSize, NumBlocks, Guarded, SmallerSize,
         Distinct, Beef, Load32, ListsOk, Partition;
    var r, chain := h.refs[p], h.free[p];
    var b := chain[0];
    assert PageOk(h.mem, r, chain, h.live[p]);
    SameBlocks(r, PopRef(r, chain), b);
    BlockRestored(h.mem, h3.mem, r, chain);
    assert [b] + chain[1..] == chain;
    assert PushRef(PopRef(r, chain), b) == r;
    assert h.live[p][b := cs] - {b} == h.live[p];
    Overwritten(h.refs, p, PopRef(r, chain));
    Overwritten(h.free, p, chain[1..]);
    Overwritten(h.live, p, h.live[p][b := cs]);
  }

  /**
   The same when kmalloc had to add a page and kfree gives it back: lists, pagerefs, chains and
   sizes are as before, and memory is the same outside that page.
   */
  lemma DropUndoesNewPage(h: Heap, h1: Heap, h2: Heap, h3: Heap, h4: Heap, p: nat, b: nat, page: nat, kind: Kind,
        cs: nat)
    requires HeapOk(h) && NewPageStep(h, h1, p, page, kind) && AllocStep(h1, h2, p, cs) && IsLive(h2, p, b)
    requires ClientRan(h2, h3, p, b) && DropStep(h3, h4, p, b)
    ensures h4 == h.(mem := h4.mem) && SameOutside(h.mem, h4.mem, page, page + PAGE_SIZE)
  {
    hide PageRef.Addr, PageRef.Tag, PageOk, BlockAddr, BlockSize, NumBlocks, Guarded, SmallerSize, Distinct, Down,
         ListsOk;
    var r := h1.refs[p];
    assert b == h1.free[p][0];
    SameWord(r, PopRef(r, h1.free[p]));
    FreshBlocks(h1, p, kind);
    MemoryBack(h, h1, h2, h3, h4, p, page, cs);
    assert RemoveFrom([p] + h.all, p) == h.all && RemoveFrom([p] + h.sizes[kind], p) == h.sizes[kind];
    assert h4.sizes == h.sizes;
    Removed(h.refs, p, r, PopRef(r, h1.free[p]));
    Removed(h.free, p, h1.free[p], h1.free[p][1..]);
    Removed(h.live, p, map[], map[b := cs]);
    assert h2.live[p] == map[b := cs];
  }

  lemma FreshBlocks(h: Heap, p: nat, kind: Kind)
    requires p in h.refs && PageOk(h.mem, h.refs[p], Down(NumBlocks(kind)), map[]) && h.refs[p].Tag() == kind
    ensures h.refs[p].Tag() < NSIZES && h.refs[p].nfree > 0
    ensures forall b | 0 <= b < NumBlocks(kind) ::
              && h.refs[p].Addr() <= BlockAddr(h.refs[p], b)
              && BlockAddr(h.refs[p], b) + BlockSize(h.refs[p].Tag()) <= h.refs[p].Addr() + PAGE_SIZE
  {
    hide PageRef.Addr, PageRef.Tag, BlockSize, NumBlocks, FreeBlockOk, Partition, ChainShape, HeadOffset, BlockAddr;
    forall b: nat | b < NumBlocks(kind)
      ensures h.refs[p].Addr() <= BlockAddr(h.refs[p], b)
      ensures BlockAddr(h.refs[p], b) + BlockSize(h.refs[p].Tag()) <= h.refs[p].Addr() + PAGE_SIZE
    {
      BlockInPage(h.refs[p], b);
    }
  }

  lemma MemoryBack(h: Heap, h1: Heap, h2: Heap, h3: Heap, h4: Heap, p: nat, page: nat, cs: nat)
    requires SameOutside(h.mem, h1.mem, page, page + PAGE_SIZE) && AllocStep(h1, h2, p, cs)
    requires h1.refs[p].Addr() == page
    requires var r, b := h1.refs[p], h1.free[p][0];
             && page <= BlockAddr(r, b) && BlockAddr(r, b) + BlockSize(r.Tag()) <= page + PAGE_SIZE
    requires ClientRan(h2, h3, p, h1.free[p][0]) && SameOutside(h3.mem, h4.mem, page, page + PAGE_SIZE)
    ensures SameOutside(h.mem, h4.mem, page, page + PAGE_SIZE)
  {
    hide PageRef.Addr, PageRef.Tag, BlockSize, Guarded, SmallerSize;
    var r, b := h1.refs[p], h1.free[p][0];
    SameBlocks(r, PopRef(r, h1.free[p]), b);
  }

  lemma Removed<T>(m: map<nat, T>, p: nat, x: T, y: T)
    requires p !in m
    ensures m[p := x][p := y] - {p} == m
  {}

  /**
   And for the system as a whole: a thread that found no free block, got a page, installed it and
   then freed the block leaves pagerefs, page owners and every thread as they were.
   */
  lemma FreeUndoesInstall(s0: Sys, s1: Sys, s2: Sys, s3: Sys, s4: Sys, s5: Sys, s6: Sys,
                          t: Thread, kind: Kind, cs: nat, page: nat, ref: nat, b: nat, mid: Heap)
    requires SysOk(s0) && Step(s0, s1, t, Miss(kind, cs)) && Step(s1, s2, t, GetPage(page))
             && Step(s2, s3, t, Install(ref, mid))
    requires IsLive(s3.heap, ref, b) && s4 == s3.(heap := s4.heap) && ClientRan(s3.heap, s4.heap, ref, b)
    requires Step(s4, s5, t, Drop(ref, b)) && Step(s5, s6, t, Return)
    ensures s6 == s0.(heap := s0.heap.(mem := s6.heap.mem))
            && SameOutside(s0.heap.mem, s6.heap.mem, page, page + PAGE_SIZE)
  {
    hide HeapOk, PagesOwned, RefsOwned, RequestOk, PageInRam, Step, NewPageStep, AllocStep, DropStep, PageRef.Addr,
         ClientRan;
    assert HeapOk(s0.heap);
    hide SysOk;
    InstallTrip(s0, s1, s2, s3, t, kind, cs, page, ref, mid);
    ReturnTrip(s4, s5, s6, t, ref, b);
    DropUndoesNewPage(s0.heap, mid, s3.heap, s4.heap, s5.heap, ref, b, page, kind, cs);
    PageKept(s0.heap, mid, s3.heap, s4.heap, ref, b, page, kind, cs);
    assert s6.refs == s0.refs && s6.granted == s0.granted;
  }

  lemma InstallTrip(s0: Sys, s1: Sys, s2: Sys, s3: Sys, t: Thread, kind: Kind, cs: nat, page: nat, ref: nat, mid: Heap)
    requires Step(s0, s1, t, Miss(kind, cs)) && Step(s1, s2, t, GetPage(page)) && Step(s2, s3, t, Install(ref, mid))
    ensures NewPageStep(s0.heap, mid, ref, page, kind) && AllocStep(mid, s3.heap, ref, cs)
    ensures t in s0.threads && s0.threads[t].Idle? && ref !in s0.refs && page !in s0.granted
    ensures s3 == s0.(heap := s3.heap, refs := s0.refs[ref := Installed], granted := s0.granted[page := HeapPage(ref)])
  {
    hide NewPageStep, AllocStep, PageRef.Tag, SmallerSize, BlockSize, PageInRam, RootOf;
    assert s3.threads == s0.threads;
  }

  /**
   When the pageref's root had no page either, kmalloc gets that page too and it stays: otherwise
   freeing the block leaves everything as it was.
   */
  lemma FreeUndoesAttach(s0: Sys, s1: Sys, s2: Sys, s3: Sys, s4: Sys, s5: Sys, s6: Sys, s7: Sys, s8: Sys,
                         t: Thread, kind: Kind, cs: nat, page: nat, ref: nat, va: nat, b: nat, mid: Heap)
    requires SysOk(s0) && Step(s0, s1, t, Miss(kind, cs)) && Step(s1, s2, t, GetPage(page))
    requires Step(s2, s3, t, Reserve(ref)) && Step(s3, s4, t, GetRefPage(va)) && Step(s4, s5, t, Attach(mid))
    requires IsLive(s5.heap, ref, b) && s6 == s5.(heap := s6.heap) && ClientRan(s5.heap, s6.heap, ref, b)
    requires Step(s6, s7, t, Drop(ref, b)) && Step(s7, s8, t, Return)
    ensures RootOf(ref) < |s0.rootpage| && s0.rootpage[RootOf(ref)] == 0
    ensures s8 == s0.(heap := s0.heap.(mem := s8.heap.mem), rootpage := s0.rootpage[RootOf(ref) := va],
                      granted := s0.granted[va := RootPage(RootOf(ref))])
    ensures SameOutside(s0.heap.mem, s8.heap.mem, page, page + PAGE_SIZE)
  {
    hide HeapOk, PagesOwned, RefsOwned, RequestOk, PageInRam, Step, NewPageStep, AllocStep, DropStep, PageRef.Addr,
         ClientRan, RootOf;
    assert HeapOk(s0.heap);
    hide SysOk;
    ReserveTrip(s0, s1, s2, s3, t, kind, cs, page, ref);
    AttachTrip(s0, s3, s4, s5, t, kind, cs, page, ref, va, mid);
    ReturnTrip(s6, s7, s8, t, ref, b);
    DropUndoesNewPage(s0.heap, mid, s5.heap, s6.heap, s7.heap, ref, b, page, kind, cs);
    PageKept(s0.heap, mid, s5.heap, s6.heap, ref, b, page, kind, cs);
    assert s8.refs == s0.refs;
    assert s8.granted == s0.granted[va := RootPage(RootOf(ref))];
  }

  lemma ReserveTrip(s0: Sys, s1: Sys, s2: Sys, s3: Sys, t: Thread, kind: Kind, cs: nat, page: nat, ref: nat)
    requires Step(s0, s1, t, Miss(kind, cs)) && Step(s1, s2, t, GetPage(page)) && Step(s2, s3, t, Reserve(ref))
    ensures t in s0.threads && s0.threads[t].Idle? && ref !in s0.refs && page !in s0.granted
    ensures RootOf(ref) < NUM_PAGEREFPAGES == |s0.rootpage| && s0.rootpage[RootOf(ref)] == 0
    ensures s3 == s0.(threads := s0.threads[t := Growing(kind, cs, page, ref)], refs := s0.refs[ref := Reserved(t)],
                      granted := s0.granted[page := Held(t)])
  {
    hide PageRef.Tag, SmallerSize, BlockSize, PageInRam, RootOf;
    assert s3.threads == s0.threads[t := Growing(kind, cs, page, ref)];
  }

  lemma AttachTrip(s0: Sys, s3: Sys, s4: Sys, s5: Sys, t: Thread, kind: Kind, cs: nat, page: nat, ref: nat, va: nat,
                   mid: Heap)
    requires t in s0.threads && s0.threads[t].Idle? && RootOf(ref) < NUM_PAGEREFPAGES == |s0.rootpage|
    requires s3 == s0.(threads := s0.threads[t := Growing(kind, cs, page, ref)], refs := s0.refs[ref := Reserved(t)],
                       granted := s0.granted[page := Held(t)])
    requires Step(s3, s4, t, GetRefPage(va)) && Step(s4, s5, t, Attach(mid))
    ensures NewPageStep(s0.heap, mid, ref, page, kind) && AllocStep(mid, s5.heap, ref, cs)
    ensures va != page && va !in s0.granted
    ensures s5 == s0.(heap := s5.heap, refs := s0.refs[ref := Installed], rootpage := s0.rootpage[RootOf(ref) := va],
                      granted := s0.granted[va := RootPage(RootOf(ref))][page := HeapPage(ref)])
  {
    hide NewPageStep, AllocStep, PageRef.Tag, SmallerSize, BlockSize, PageInRam, RootOf;
    assert s5.threads == s0.threads && s5.refs == s0.refs[ref := Installed];
    assert s5.granted == s0.granted[va := RootPage(RootOf(ref))][page := HeapPage(ref)];
  }

  lemma ReturnTrip(s: Sys, s1: Sys, s2: Sys, t: Thread, p: nat, b: nat)
    requires Step(s, s1, t, Drop(p, b)) && Step(s1, s2, t, Return)
    ensures DropStep(s.heap, s1.heap, p, b) && p in s.heap.refs
    ensures s2 == s.(heap := s1.heap, refs := s.refs - {p}, granted := s.granted - {s.heap.refs[p].Addr()})
  {
    hide ReleaseOk, PageRef.Addr, PageRef.Tag, RemoveFrom;
    assert s2.threads == s.threads;
  }

  lemma PageKept(h: Heap, h1: Heap, h2: Heap, h3: Heap, p: nat, b: nat, page: nat, kind: Kind, cs: nat)
    requires NewPageStep(h, h1, p, page, kind) && AllocStep(h1, h2, p, cs) && ClientRan(h2, h3, p, b)
    ensures p in h3.refs && h3.refs[p].Addr() == page
  {
    hide PageRef.Addr, PageRef.Tag, PageOk, BlockAddr, BlockSize, NumBlocks, Guarded, SmallerSize, Down;
    SameWord(h1.refs[p], h2.refs[p]);
  }

  // Whole pages: freeing them straight after restores the system exactly.
  lemma BigFreeUndoesAlloc(s: Sys, s1: Sys, s2: Sys, t: Thread, a: nat, n: nat)
    requires Step(s, s1, t, BigAlloc(a, n)) && Step(s1, s2, t, BigFree(a))
    ensures s2 == s
  {
    hide InRun, PageInRam;
    assert s2.big == s.big;
    forall page: nat
      ensures page in s2.granted <==> page in s.granted
    {
      assert InRun(a, n, page) ==> Fresh(s, page);
    }
    assert s2.granted == s.granted;
  }

  lemma Overwritten<T>(m: map<nat, T>, p: nat, x: T)
    requires p in m
    ensures m[p := x][p := m[p]] == m
  {}

  lemma SameBlocks(r: PageRef, r': PageRef, b: nat)
    requires r.pab == r'.pab && r.Tag() < NSIZES
    ensures r'.Tag() == r.Tag() && forall c: nat :: BlockAddr(r', c) == BlockAddr(r, c)
  {}

  lemma BlockRestored(m: seq<Byte>, m': seq<Byte>, r: PageRef, chain: seq<nat>)
    requires RefOk(r, |m|) && ChainShape(r.Tag(), chain) && |chain| > 0 && FreeBlockOk(m, r, chain, 0)
    requires SameOutside(m, m', BlockAddr(r, chain[0]), BlockAddr(r, chain[0]) + BlockSize(r.Tag()))
    requires BlockAddr(r, chain[0]) + BlockSize(r.Tag()) <= |m'|
    requires Beef(m', BlockAddr(r, chain[0]), BlockSize(r.Tag()))
    requires Load32(m', BlockAddr(r, chain[0])) == if |chain| == 1 then 0 else BlockAddr(r, chain[1])
    ensures m' == m
  {
    hide PageRef.Addr, PageRef.Tag, BlockSize, NumBlocks, Distinct, Load32;
    var a, size := BlockAddr(r, chain[0]), BlockSize(r.Tag());
    BlockInPage(r, chain[0]);
    WordBytes(m, m', a);
    forall i | 0 <= i < |m|
      ensures m'[i] == m[i]
    {
      if a + 4 <= i < a + size {
        assert m[a + (i - a)] == BeefByte(i - a) == m'[a + (i - a)];
      }
    }
  }

  // A word determines its bytes.
  lemma WordBytes(m: seq<Byte>, m': seq<Byte>, a: nat)
    requires a + 4 <= |m| && a + 4 <= |m'| && Load32(m, a) == Load32(m', a)
    ensures forall i | a <= i < a + 4 :: m[i] == m'[i]
  {
    assert Load16(m, a) == Load16(m', a) && Load16(m, a + 2) == Load16(m', a + 2) by {
      HalfBytes(m, m, a + 2);
      HalfBytes(m', m', a + 2);
      hide Load16;
      TwoDigits(Load16(m, a), Load16(m, a + 2), Load16(m', a), Load16(m', a + 2));
    }
    hide Load32;
    HalfBytes(m, m', a);
    HalfBytes(m, m', a + 2);
  }

  lemma HalfBytes(m: seq<Byte>, m': seq<Byte>, a: nat)
    requires a + 2 <= |m| && a + 2 <= |m'|
    ensures Load16(m, a) < 0x1_0000
    ensures Load16(m, a) == Load16(m', a) ==> m[a] == m'[a] && m[a + 1] == m'[a + 1]
  {}

  lemma TwoDigits(x: nat, y: nat, x': nat, y': nat)
    requires y < 0x1_0000 && y' < 0x1_0000 && x * 0x1_0000 + y == x' * 0x1_0000 + y'
    ensures x == x' && y == y'
  {}
}
