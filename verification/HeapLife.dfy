/**
 The life of a block, over runs of the allocator by any number of threads: what a request gets,
 and that a block's bytes change only by its holder's own writes until it is freed.
 */
module HeapLife {
  import opened HeapMemory
  import opened HeapPage
  import opened HeapBlocks
  import opened Heap
  import opened HeapSystem
  import Kmalloc

  // ---------------------------------------------------------------- a block's bytes

  predicate InBlock(h: Heap, p: nat, b: nat, x: nat) {
    && p in h.refs && h.refs[p].Tag() < NSIZES
    && BlockAddr(h.refs[p], b) <= x < BlockAddr(h.refs[p], b) + BlockSize(h.refs[p].Tag()) && x < |h.mem|
  }

  // The block is handed out, as it was, in the same place.
  ghost predicate Kept(h: Heap, h': Heap, p: nat, b: nat) {
    && IsLive(h, p, b) && IsLive(h', p, b) && h'.live[p][b] == h.live[p][b] && h'.refs[p].pab == h.refs[p].pab
    && |h'.mem| == |h.mem|
  }

  lemma AllocBytes(h: Heap, h': Heap, q: nat, cs: nat, p: nat, b: nat, x: nat)
    requires HeapOk(h) && AllocStep(h, h', q, cs) && IsLive(h, p, b) && InBlock(h, p, b, x)
    ensures Kept(h, h', p, b) && x < |h.mem| == |h'.mem| && h'.mem[x] == h.mem[x]
  {
    hide HeapOk, PageRef.Tag, PageRef.Addr, BlockAddr, BlockSize, Guarded, SmallerSize;
    var c := h.free[q][0];
    AllocKeeps(h, h', q, cs);
    Kmalloc.SameBlocks(h.refs[q], h'.refs[q], c);
    LiveBlocksDisjoint(h', p, b, q, c);
  }

  lemma FreeBytes(h: Heap, h': Heap, q: nat, c: nat, p: nat, b: nat, x: nat)
    requires HeapOk(h) && FreeStep(h, h', q, c) && IsLive(h, p, b) && InBlock(h, p, b, x) && (q, c) != (p, b)
    ensures Kept(h, h', p, b) && x < |h.mem| == |h'.mem| && h'.mem[x] == h.mem[x]
  {
    hide HeapOk, PageRef.Tag, PageRef.Addr, BlockAddr, BlockSize, Beef, Load32;
    LiveBlocksDisjoint(h, p, b, q, c);
  }

  lemma DropBytes(h: Heap, h': Heap, q: nat, c: nat, p: nat, b: nat, x: nat)
    requires HeapOk(h) && DropStep(h, h', q, c) && IsLive(h, p, b) && InBlock(h, p, b, x) && (q, c) != (p, b)
    ensures Kept(h, h', p, b) && x < |h.mem| == |h'.mem| && h'.mem[x] == h.mem[x]
  {
    hide ListsOk, PageOk, PageRef.Tag, PageRef.Addr, BlockAddr, BlockSize;
    PagesApart(h, p, q);
    InsideItsPage(h, p, b);
  }

  lemma WriteBytes(h: Heap, h': Heap, q: nat, c: nat, i: nat, v: Byte, p: nat, b: nat, x: nat)
    requires HeapOk(h) && WriteStep(h, h', q, c, i, v) && IsLive(h, p, b) && InBlock(h, p, b, x)
    ensures Kept(h, h', p, b) && x < |h.mem| == |h'.mem| && h'.mem[x] == if (q, c, i) == (p, b, x) then v else h.mem[x]
  {
    hide HeapOk, PageRef.Tag, PageRef.Addr, BlockAddr, BlockSize;
    if (q, c) != (p, b) {
      LiveBlocksDisjoint(h, q, c, p, b);
    }
  }

  lemma PlaceBytes(h: Heap, mid: Heap, h': Heap, ref: nat, page: nat, kind: Kind, cs: nat, p: nat, b: nat, x: nat)
    requires HeapOk(h) && NewPageStep(h, mid, ref, page, kind) && AllocStep(mid, h', ref, cs)
    requires IsLive(h, p, b) && InBlock(h, p, b, x)
    ensures Kept(h, h', p, b) && x < |h.mem| == |h'.mem| && h'.mem[x] == h.mem[x]
  {
    hide HeapOk, NewPageStep, AllocStep, InBlock, Kept, IsLive;
    InMemory(h, p, b, x);
    NewPageBytes(h, mid, ref, page, kind, p, b, x);
    NewPageKeeps(h, mid, ref, page, kind);
    KeptIn(h, mid, p, b, x);
    AllocBytes(mid, h', ref, cs, p, b, x);
    KeptBoth(h, mid, h', p, b);
  }

  lemma NewPageBytes(h: Heap, mid: Heap, ref: nat, page: nat, kind: Kind, p: nat, b: nat, x: nat)
    requires HeapOk(h) && NewPageStep(h, mid, ref, page, kind) && IsLive(h, p, b) && InBlock(h, p, b, x)
    ensures Kept(h, mid, p, b) && x < |h.mem| == |mid.mem| && mid.mem[x] == h.mem[x]
  {
    hide ListsOk, PageOk, PageRef.Tag, PageRef.Addr, BlockAddr, BlockSize, NumBlocks, Down;
    InsideItsPage(h, p, b);
    AlignedAddr(h.refs[p]);
    AlignedAddr(mid.refs[ref]);
    AlignedApart(h.refs[p].Addr(), page);
  }

  // The byte at x after action a, if the block it is in stays.
  function ByteAfter(a: Action, p: nat, b: nat, x: nat, before: Byte): Byte {
    if a.Write? && (a.p, a.b, a.i) == (p, b, x) then a.x else before
  }

  predicate Frees(a: Action, p: nat, b: nat) {
    (a.Free? || a.Drop?) && (a.p, a.b) == (p, b)
  }

  lemma StepBytes(s: Sys, s': Sys, t: Thread, a: Action, p: nat, b: nat, x: nat)
    requires SysOk(s) && Step(s, s', t, a) && !Frees(a, p, b) && IsLive(s.heap, p, b) && InBlock(s.heap, p, b, x)
    ensures Kept(s.heap, s'.heap, p, b) && s'.heap.mem[x] == ByteAfter(a, p, b, x, s.heap.mem[x])
  {
    hide Step, SysOk, HeapOk, HeapStep, InBlock, Kept, IsLive, ByteAfter;
    InMemory(s.heap, p, b, x);
    if a.Hit? || a.Free? || a.Drop? || a.Write? {
      Locked(s, s', t, a);
      LockedBytes(s.heap, s'.heap, a, p, b, x);
    } else if a.Install? || a.LateRefPage? || a.Attach? || a.Place? {
      PlacingBytes(s, s', t, a, p, b, x);
    } else {
      Untouched(s, s', t, a);
      KeptSame(s.heap, p, b);
      NotWritten(a, p, b, x, s.heap.mem[x]);
    }
  }

  lemma NotWritten(a: Action, p: nat, b: nat, x: nat, before: Byte)
    requires !a.Write?
    ensures ByteAfter(a, p, b, x, before) == before
  {}

  lemma Untouched(s: Sys, s': Sys, t: Thread, a: Action)
    requires Step(s, s', t, a)
    requires !a.Hit? && !a.Free? && !a.Drop? && !a.Write? && !a.Install? && !a.LateRefPage? && !a.Attach? && !a.Place?
    ensures s'.heap == s.heap
  {
    hide RequestOk, RootOf, PageInRam, InRun;
  }

  // What the locked sections and the clients do to the heap.
  ghost predicate HeapStep(h: Heap, h': Heap, a: Action) {
    match a
    case Hit(q, cs) => AllocStep(h, h', q, cs)
    case Free(q, c) => FreeStep(h, h', q, c)
    case Drop(q, c) => DropStep(h, h', q, c)
    case Write(q, c, i, v) => WriteStep(h, h', q, c, i, v)
    case _ => false
  }

  lemma Locked(s: Sys, s': Sys, t: Thread, a: Action)
    requires SysOk(s) && Step(s, s', t, a) && (a.Hit? || a.Free? || a.Drop? || a.Write?)
    ensures HeapOk(s.heap) && HeapStep(s.heap, s'.heap, a)
  {
    hide HeapOk, AllocStep, FreeStep, DropStep, WriteStep, PagesOwned, RefsOwned, PageInRam, RequestOk, RootOf;
  }

  lemma LockedBytes(h: Heap, h': Heap, a: Action, p: nat, b: nat, x: nat)
    requires HeapOk(h) && HeapStep(h, h', a) && !Frees(a, p, b) && IsLive(h, p, b) && InBlock(h, p, b, x)
    ensures Kept(h, h', p, b) && x < |h.mem| == |h'.mem| && h'.mem[x] == ByteAfter(a, p, b, x, h.mem[x])
  {
    hide HeapOk, AllocStep, FreeStep, DropStep, WriteStep, InBlock, IsLive;
    InMemory(h, p, b, x);
    match a
    case Hit(q, cs) => AllocBytes(h, h', q, cs, p, b, x);
    case Free(q, c) => FreeBytes(h, h', q, c, p, b, x);
    case Drop(q, c) => DropBytes(h, h', q, c, p, b, x);
    case Write(q, c, i, v) => WriteBytes(h, h', q, c, i, v, p, b, x);
  }

  lemma PlacingBytes(s: Sys, s': Sys, t: Thread, a: Action, p: nat, b: nat, x: nat)
    requires SysOk(s) && Step(s, s', t, a) && IsLive(s.heap, p, b) && InBlock(s.heap, p, b, x)
    requires a.Install? || a.LateRefPage? || a.Attach? || a.Place?
    ensures Kept(s.heap, s'.heap, p, b) && x < |s.heap.mem| == |s'.heap.mem|
    ensures s'.heap.mem[x] == ByteAfter(a, p, b, x, s.heap.mem[x])
  {
    hide HeapOk, NewPageStep, AllocStep, PagesOwned, RefsOwned, PageInRam, RequestOk, InBlock, RootOf;
    InMemory(s.heap, p, b, x);
    var ph := s.threads[t];
    PlaceBytes(s.heap, a.mid, s'.heap, if a.Install? then a.ref else ph.ref, ph.page, ph.kind, ph.cs, p, b, x);
  }

  lemma InMemory(h: Heap, p: nat, b: nat, x: nat)
    requires InBlock(h, p, b, x)
    ensures x < |h.mem|
  {}

  // The last value written to byte x of block p/b between i and n, or what it held at i.
  function Stored(acts: seq<(Thread, Action)>, p: nat, b: nat, x: nat, was: Byte, i: nat, n: nat): Byte
    requires i <= n <= |acts|
    decreases n
  {
    if n == i then was else ByteAfter(acts[n - 1].1, p, b, x, Stored(acts, p, b, x, was, i, n - 1))
  }

  /**
   Over every run: until a block is freed it stays handed out, in its place and with its size, and
   every byte of it holds what its holder last wrote there, or what it held before, whatever any
   thread allocates, frees or writes elsewhere meanwhile.
   */
  lemma {:induction false} BytesStay(states: seq<Sys>, acts: seq<(Thread, Action)>, i: nat, n: nat, p: nat, b: nat,
        x: nat)
    requires Run(states, acts) && i <= n <= |acts| && IsLive(states[i].heap, p, b) && InBlock(states[i].heap, p, b, x)
    requires forall j | i <= j < n :: !Frees(acts[j].1, p, b)
    ensures Kept(states[i].heap, states[n].heap, p, b)
    ensures states[n].heap.mem[x] == Stored(acts, p, b, x, states[i].heap.mem[x], i, n)
  {
    hide Init, Step, SysOk, InBlock, Kept;
    InMemory(states[i].heap, p, b, x);
    if n == i {
      KeptSame(states[i].heap, p, b);
    } else {
      BytesStay(states, acts, i, n - 1, p, b, x);
      RunKeeps(states, acts, n - 1);
      KeptIn(states[i].heap, states[n - 1].heap, p, b, x);
      StepBytes(states[n - 1], states[n], acts[n - 1].0, acts[n - 1].1, p, b, x);
      KeptBoth(states[i].heap, states[n - 1].heap, states[n].heap, p, b);
    }
  }

  lemma KeptSame(h: Heap, p: nat, b: nat)
    requires IsLive(h, p, b)
    ensures Kept(h, h, p, b)
  {}

  lemma KeptIn(h: Heap, h': Heap, p: nat, b: nat, x: nat)
    requires Kept(h, h', p, b) && InBlock(h, p, b, x)
    ensures IsLive(h', p, b) && InBlock(h', p, b, x)
  {
    hide PageRef.Tag, BlockAddr, BlockSize;
    Kmalloc.SameBlocks(h.refs[p], h'.refs[p], b);
  }

  lemma KeptBoth(h: Heap, h1: Heap, h2: Heap, p: nat, b: nat)
    requires Kept(h, h1, p, b) && Kept(h1, h2, p, b)
    ensures Kept(h, h2, p, b)
  {}

  // ---------------------------------------------------------------- what a request gets

  // What a thread inside the allocator was asked for.
  predicate Asked(ph: Phase, kind: Kind, cs: nat) {
    !ph.Idle? && (!ph.Returning? ==> ph.kind == kind && ph.cs == cs)
  }

  // The block that step s to s' hands out is new, of that class and recorded size.
  ghost predicate Gets(s: Sys, s': Sys, p: nat, b: nat, kind: Kind, cs: nat) {
    && !IsLive(s.heap, p, b) && IsLive(s'.heap, p, b) && s'.heap.live[p][b] == cs && s'.heap.refs[p].Tag() == kind
  }

  lemma PlacedGets(s: Sys, s': Sys, s1: Sys, t: Thread, ref: nat, page: nat, kind: Kind, cs: nat, mid: Heap)
    requires Placed(s1, s', t, ref, page, kind, cs, mid) && s1.heap == s.heap
    ensures s'.threads[t].Idle? && exists b: nat :: Gets(s, s', ref, b, kind, cs)
  {
    hide PageOk, PageRef.Tag, PageRef.Addr, BlockAddr, BlockSize, NumBlocks, Down, Guarded, SmallerSize;
    var b := mid.free[ref][0];
    SameWord(mid.refs[ref], s'.heap.refs[ref]);
    assert Gets(s, s', ref, b, kind, cs);
  }

  // A thread inside the allocator keeps what it was asked for until it is through.
  lemma AskedStep(s: Sys, s': Sys, u: Thread, a: Action, t: Thread, kind: Kind, cs: nat)
    requires Step(s, s', u, a) && t in s.threads && Asked(s.threads[t], kind, cs)
    ensures t in s'.threads && (s'.threads[t].Idle? || Asked(s'.threads[t], kind, cs))
    ensures u != t ==> s'.threads[t] == s.threads[t]
  {
    hide AllocStep, FreeStep, DropStep, NewPageStep, WriteStep, RequestOk, RootOf, PageInRam;
  }

  // The step with which it gets through: it has its block, or there was no memory.
  lemma LastStep(s: Sys, s': Sys, t: Thread, a: Action, kind: Kind, cs: nat)
    requires Step(s, s', t, a) && Asked(s.threads[t], kind, cs) && t in s'.threads && s'.threads[t].Idle?
    ensures if a.NoPage? || a.Return? then s'.heap == s.heap else exists p: nat, b: nat :: Gets(s, s', p, b, kind, cs)
  {
    hide AllocStep, FreeStep, DropStep, NewPageStep, WriteStep, RequestOk, RootOf, PageInRam, Gets;
    var ph := s.threads[t];
    if a.Install? {
      PlacedGets(s, s', s, t, a.ref, ph.page, ph.kind, ph.cs, a.mid);
    } else if a.Attach? {
      PlacedGets(s, s', Attached(s, t, ph), t, ph.ref, ph.page, ph.kind, ph.cs, a.mid);
    } else if a.LateRefPage? || a.Place? {
      PlacedGets(s, s', s, t, ph.ref, ph.page, ph.kind, ph.cs, a.mid);
    }
  }

  lemma Begins(s: Sys, s': Sys, t: Thread, kind: Kind, cs: nat)
    requires Step(s, s', t, Miss(kind, cs))
    ensures t in s'.threads && Asked(s'.threads[t], kind, cs)
  {
    hide RequestOk, PageRef.Tag;
  }

  // From step i on, up to state n, thread t is inside the allocator.
  ghost predicate Inside(states: seq<Sys>, t: Thread, i: nat, n: nat)
    requires n < |states|
  {
    i < n && forall j | i < j <= n :: t in states[j].threads && !states[j].threads[t].Idle?
  }

  lemma {:induction false} AskedSince(states: seq<Sys>, acts: seq<(Thread, Action)>, t: Thread, kind: Kind, cs: nat,
        i: nat, n: nat)
    requires Run(states, acts) && n <= |acts| && Inside(states, t, i, n) && acts[i] == (t, Miss(kind, cs))
    ensures Asked(states[n].threads[t], kind, cs)
  {
    hide Init, Step, Asked;
    assert Step(states[n - 1], states[n], acts[n - 1].0, acts[n - 1].1);
    if n == i + 1 {
      Begins(states[i], states[n], t, kind, cs);
    } else {
      AskedSince(states, acts, t, kind, cs, i, n - 1);
      AskedStep(states[n - 1], states[n], acts[n - 1].0, acts[n - 1].1, t, kind, cs);
    }
  }

  /**
   Over every run: a kmalloc that finds no free block, and during which others may do anything,
   comes back with a new block of the class it needed and the size it was asked for, or, if
   alloc_kpages or allocpageref gave it nothing, with no block and the heap as it is.
   */
  lemma RequestMet(states: seq<Sys>, acts: seq<(Thread, Action)>, t: Thread, kind: Kind, cs: nat, i: nat, n: nat)
    requires Run(states, acts) && n < |acts| && Inside(states, t, i, n) && acts[i] == (t, Miss(kind, cs))
    requires t in states[n + 1].threads && states[n + 1].threads[t].Idle?
    ensures acts[n].0 == t
    ensures var s, s' := states[n], states[n + 1];
            if acts[n].1.NoPage? || acts[n].1.Return? then s'.heap == s.heap
            else exists p: nat, b: nat :: Gets(s, s', p, b, kind, cs)
  {
    hide Init, Step, Asked, Gets;
    AskedSince(states, acts, t, kind, cs, i, n);
    assert Step(states[n], states[n + 1], acts[n].0, acts[n].1);
    AskedStep(states[n], states[n + 1], acts[n].0, acts[n].1, t, kind, cs);
    hide Run;
    LastStep(states[n], states[n + 1], t, acts[n].1, kind, cs);
  }
}
