/**
 The bitmap pool of pagerefs under the concurrent system: the root arrays stand for the
 numbers in use, and exactly when freepageref's assertion holds.
 */
module HeapPool {
  import opened HeapMemory
  import opened HeapPage
  import opened Heap
  import opened HeapInstall
  import opened PageRefs
  import opened HeapSystem

  // Pageref number n is entry EntryOf(n) of root RootOf(n).
  function EntryOf(n: nat): (j: nat)
    ensures j < NPAGEREFS_PER_PAGE
  {
    n % NPAGEREFS_PER_PAGE
  }

  function Number(w: nat, j: nat): (n: nat)
    requires j < NPAGEREFS_PER_PAGE
    ensures RootOf(n) == w && EntryOf(n) == j
  {
    w * NPAGEREFS_PER_PAGE + j
  }

  lemma NumberOf(n: nat)
    ensures Number(RootOf(n), EntryOf(n)) == n
  {}

  lemma NumberOrder(n: nat, m: nat)
    ensures m < n <==> RootOf(m) < RootOf(n) || (RootOf(m) == RootOf(n) && EntryOf(m) < EntryOf(n))
  {}

  // The roots as the code keeps them stand for the pages and numbers of the system.
  ghost predicate Matches(roots: seq<Root>, s: Sys) {
    && |roots| == NUM_PAGEREFPAGES == |s.rootpage|
    && (forall w | 0 <= w < NUM_PAGEREFPAGES :: RootOk(roots[w]) && roots[w].page == s.rootpage[w])
    && (forall n: nat :: n in s.refs <==> RootOf(n) < NUM_PAGEREFPAGES && InUse(roots[RootOf(n)].words, EntryOf(n)))
  }

  // The number the scan of the bitmaps finds is the lowest one not in use.
  lemma FirstFreeIsLowest(roots: seq<Root>, s: Sys, n: nat)
    requires Matches(roots, s)
    ensures FirstFree(s, n) <==> RootOf(n) < NUM_PAGEREFPAGES && LowestFree(roots, RootOf(n), EntryOf(n))
  {
    hide RootOf, EntryOf, Number, InUse;
    var w, j := RootOf(n), EntryOf(n);
    if FirstFree(s, n) {
      forall v | 0 <= v < w
        ensures Used(roots[v].words) == Range(NPAGEREFS_PER_PAGE)
      {
        FullBelow(roots, s, n, v);
      }
      forall i: nat | i < j
        ensures InUse(roots[w].words, i)
      {
        NumberOrder(n, Number(w, i));
        assert Number(w, i) in s.refs;
      }
    } else if w < NUM_PAGEREFPAGES && LowestFree(roots, w, j) {
      forall m: nat | m < n
        ensures m in s.refs
      {
        NumberOrder(n, m);
        UsedBelow(roots, w, j, m);
      }
    }
  }

  lemma FullBelow(roots: seq<Root>, s: Sys, n: nat, v: nat)
    requires Matches(roots, s) && FirstFree(s, n) && v < RootOf(n)
    ensures Used(roots[v].words) == Range(NPAGEREFS_PER_PAGE)
  {
    hide RootOf, EntryOf, Number, InUse;
    forall i: nat | i < NPAGEREFS_PER_PAGE
      ensures InUse(roots[v].words, i)
    {
      NumberOrder(n, Number(v, i));
      assert Number(v, i) in s.refs;
    }
    RangeSize(NPAGEREFS_PER_PAGE);
  }

  lemma UsedBelow(roots: seq<Root>, w: nat, j: nat, m: nat)
    requires LowestFree(roots, w, j) && (RootOf(m) < w || (RootOf(m) == w && EntryOf(m) < j))
    ensures InUse(roots[RootOf(m)].words, EntryOf(m))
  {
    hide RootOf, EntryOf, InUse;
    RangeSize(NPAGEREFS_PER_PAGE);
    if RootOf(m) < w {
      assert EntryOf(m) in Used(roots[RootOf(m)].words);
    }
  }

  // The page of pagerefs number n belongs on is there.
  predicate HasRoot(s: Sys, n: nat) {
    RootOf(n) < |s.rootpage| && s.rootpage[RootOf(n)] != 0
  }

  /**
   freepageref's assertion, as the root arrays have it: it holds exactly when no earlier root is
   without a page yet has numbers in use, that is, when no number of an earlier root without a
   page is reserved by a thread or lost.
   */
  lemma ReleaseOkIff(roots: seq<Root>, s: Sys, p: nat)
    requires RefsOwned(s) && Matches(roots, s) && p in s.heap.refs
    ensures RootOf(p) < NUM_PAGEREFPAGES
    ensures ReleaseOk(s, p) <==> NoOrphans(roots, RootOf(p))
    ensures ReleaseOk(s, p) <==> forall n: nat | n in s.refs && RootOf(n) < RootOf(p) && !s.refs[n].Installed? ::
            HasRoot(s, n)
  {
    hide RootOf, Matches;
    assert p in s.refs;
    ReleaseByRoots(roots, s, p);
  }

  lemma ReleaseByRoots(roots: seq<Root>, s: Sys, p: nat)
    requires Matches(roots, s) && RootOf(p) < NUM_PAGEREFPAGES
    ensures ReleaseOk(s, p) <==> NoOrphans(roots, RootOf(p))
  {
    hide RootOf, EntryOf, Number, InUse;
    if ReleaseOk(s, p) {
      forall v | 0 <= v < RootOf(p) && roots[v].page == 0
        ensures Used(roots[v].words) == {}
      {
        forall j: nat | j < NPAGEREFS_PER_PAGE
          ensures !InUse(roots[v].words, j)
        {
          assert Number(v, j) !in s.refs;
        }
      }
    } else {
      var n :| n in s.refs && RootOf(n) < RootOf(p) && s.rootpage[RootOf(n)] == 0;
      assert EntryOf(n) in Used(roots[RootOf(n)].words);
    }
  }

  // What freepageref is called with is what its search expects.
  lemma ReleaseReady(roots: seq<Root>, s: Sys, p: nat)
    requires SysOk(s) && Matches(roots, s) && p in s.heap.refs
    ensures RootOf(p) < NUM_PAGEREFPAGES && InUse(roots[RootOf(p)].words, EntryOf(p)) && roots[RootOf(p)].page != 0
    ensures forall w | 0 <= w < NUM_PAGEREFPAGES :: roots[w].page % PAGE_SIZE == 0
    ensures forall v, w | 0 <= v < w < NUM_PAGEREFPAGES && roots[v].page != 0 :: roots[v].page != roots[w].page
  {
    hide HeapOk, PageRef.Addr, RootOf, EntryOf, Number, InUse, RequestOk;
    assert p in s.refs && s.refs[p].Installed?;
    forall w | 0 <= w < NUM_PAGEREFPAGES
      ensures roots[w].page % PAGE_SIZE == 0
      ensures forall v | 0 <= v < w && roots[v].page != 0 :: roots[v].page != roots[w].page
    {
      var page := s.rootpage[w];
      if page != 0 {
        assert Holds(s, RootPage(w), page);
      }
      forall v | 0 <= v < w && roots[v].page != 0
        ensures roots[v].page != roots[w].page
      {
        assert Holds(s, RootPage(v), s.rootpage[v]);
      }
    }
  }

  /**
   What a step does to the roots, in the terms of the code that works on them: allocpageref marks
   the lowest free number, freepageref clears one, and the locked part of allocpagerefpage stores
   the page.
   */
  ghost predicate PoolStep(roots: seq<Root>, roots': seq<Root>, s: Sys, t: Thread, a: Action)
    requires Matches(roots, s) && t in s.threads
  {
    match a
    case Install(ref, _) => Marked(roots, roots', ref)
    case Reserve(ref) => Marked(roots, roots', ref)
    case Drop(p, _) =>
      && RootOf(p) < NUM_PAGEREFPAGES
      && Changed(roots, roots', RootOf(p), Used(roots[RootOf(p)].words) - {EntryOf(p)}) && RootOk(roots'[RootOf(p)])
    case Attach(_) =>
      var ph := s.threads[t];
      ph.Grown? && RootOf(ph.ref) < NUM_PAGEREFPAGES
      && roots' == roots[RootOf(ph.ref) := roots[RootOf(ph.ref)].(page := ph.va)]
    case _ => roots' == roots
  }

  ghost predicate Marked(roots: seq<Root>, roots': seq<Root>, n: nat)
    requires |roots| == NUM_PAGEREFPAGES && forall w | 0 <= w < NUM_PAGEREFPAGES :: RootOk(roots[w])
  {
    && RootOf(n) < NUM_PAGEREFPAGES && LowestFree(roots, RootOf(n), EntryOf(n))
    && Changed(roots, roots', RootOf(n), Used(roots[RootOf(n)].words) + {EntryOf(n)}) && RootOk(roots'[RootOf(n)])
  }

  // Marking or clearing one number of the bitmaps does so in the set of numbers in use.
  lemma ChangedMatches(roots: seq<Root>, roots': seq<Root>, s: Sys, s': Sys, n: nat, set': bool)
    requires Matches(roots, s) && RootOf(n) < NUM_PAGEREFPAGES && s'.rootpage == s.rootpage
    requires var used := Used(roots[RootOf(n)].words);
             Changed(roots, roots', RootOf(n), if set' then used + {EntryOf(n)} else used - {EntryOf(n)})
    requires RootOk(roots'[RootOf(n)])
    requires forall m: nat :: m in s'.refs <==> if m == n then set' else m in s.refs
    ensures Matches(roots', s')
  {
    hide RootOf, EntryOf, Number, InUse;
    var w, used' := RootOf(n), Used(roots'[RootOf(n)].words);
    forall m: nat
      ensures m in s'.refs <==> RootOf(m) < NUM_PAGEREFPAGES && InUse(roots'[RootOf(m)].words, EntryOf(m))
    {
      NumberOf(n);
      NumberOf(m);
      if RootOf(m) == w {
        InUsed(roots[w].words, EntryOf(m));
        InUsed(roots'[w].words, EntryOf(m));
      }
    }
  }

  lemma InUsed(words: seq<nat>, j: nat)
    requires |words| == INUSE_WORDS && j < NPAGEREFS_PER_PAGE
    ensures InUse(words, j) <==> j in Used(words)
  {
    hide InUse;
  }

  /**
   The bitmap pool simulates the system: from roots that match, a step of the system and what
   the code does to the roots lead to roots that match again.
   */
  lemma PoolKeeps(roots: seq<Root>, roots': seq<Root>, s: Sys, s': Sys, t: Thread, a: Action)
    requires SysOk(s) && Step(s, s', t, a) && Matches(roots, s) && PoolStep(roots, roots', s, t, a)
    ensures Matches(roots', s')
  {
    hide HeapOk, PagesOwned, NewPageStep, AllocStep, FreeStep, DropStep, WriteStep, ReleaseOk, FirstFree, RequestOk;
    hide RootOf, EntryOf, InUse, Used, LowestFree, Changed, RootOk, InRun, PageRef.Addr;
    if a.Install? || a.Reserve? {
      ChangedMatches(roots, roots', s, s', a.ref, true);
    } else if a.Drop? {
      ChangedMatches(roots, roots', s, s', a.p, false);
    } else if a.Attach? {
      AttachMatches(roots, roots', s, s', t);
    } else {
      SameNumbers(s, s', t, a);
    }
  }

  lemma SameNumbers(s: Sys, s': Sys, t: Thread, a: Action)
    requires SysOk(s) && Step(s, s', t, a) && !a.Install? && !a.Reserve? && !a.Drop? && !a.Attach?
    ensures s'.rootpage == s.rootpage && forall n: nat :: n in s'.refs <==> n in s.refs
  {
    hide HeapOk, PagesOwned, NewPageStep, AllocStep, FreeStep, WriteStep, RequestOk, RootOf, InRun, PageRef.Addr;
    var ph := s.threads[t];
    if a.NoRefPage? || a.LateRefPage? || a.Place? {
      assert Reserving(ph, ph.ref);
    }
  }

  lemma AttachMatches(roots: seq<Root>, roots': seq<Root>, s: Sys, s': Sys, t: Thread)
    requires RefsOwned(s) && Matches(roots, s) && t in s.threads && s.threads[t].Grown?
    requires var ph := s.threads[t];
             && RootOf(ph.ref) < NUM_PAGEREFPAGES
             && s'.rootpage == s.rootpage[RootOf(ph.ref) := ph.va] && s'.refs == s.refs[ph.ref := Installed]
             && roots' == roots[RootOf(ph.ref) := roots[RootOf(ph.ref)].(page := ph.va)]
    ensures Matches(roots', s')
  {
    hide RootOf, EntryOf, InUse, Used;
    assert Reserving(s.threads[t], s.threads[t].ref);
  }

  lemma InitMatches(roots: seq<Root>, s: Sys)
    requires Init(s) && |roots| == NUM_PAGEREFPAGES
    requires forall w | 0 <= w < NUM_PAGEREFPAGES ::
                RootOk(roots[w]) && roots[w].page == 0 && Used(roots[w].words) == {}
    ensures Matches(roots, s)
  {
    hide RootOf, EntryOf, InUse;
    forall n: nat | RootOf(n) < NUM_PAGEREFPAGES
      ensures !InUse(roots[RootOf(n)].words, EntryOf(n))
    {
      InUsed(roots[RootOf(n)].words, EntryOf(n));
    }
  }

  /**
   At every point of every run the bitmaps, worked on by the code from what the loader leaves,
   stand for exactly the numbers in use.
   */
  lemma {:induction false} PoolRun(states: seq<Sys>, acts: seq<(Thread, Action)>, pools: seq<seq<Root>>, n: nat)
    requires Run(states, acts) && |pools| == |states| && n <= |acts| && |pools[0]| == NUM_PAGEREFPAGES
    requires forall w | 0 <= w < NUM_PAGEREFPAGES ::
               RootOk(pools[0][w]) && pools[0][w].page == 0 && Used(pools[0][w].words) == {}
    requires forall i | 0 <= i < |acts| && Matches(pools[i], states[i]) && acts[i].0 in states[i].threads ::
               PoolStep(pools[i], pools[i + 1], states[i], acts[i].0, acts[i].1)
    ensures Matches(pools[n], states[n])
  {
    hide SysOk, Step, Init, Matches, RootOk, Used, PoolStep;
    if n == 0 {
      InitMatches(pools[0], states[0]);
    } else {
      PoolRun(states, acts, pools, n - 1);
      RunKeeps(states, acts, n - 1);
      Acting(states[n - 1], states[n], acts[n - 1].0, acts[n - 1].1);
      PoolKeeps(pools[n - 1], pools[n], states[n - 1], states[n], acts[n - 1].0, acts[n - 1].1);
    }
  }

  lemma Acting(s: Sys, s': Sys, t: Thread, a: Action)
    requires Step(s, s', t, a)
    ensures t in s.threads
  {}

  // ---------------------------------------------------------------- no thread gets stuck

  lemma {:induction false} LeastFree(s: Sys, n: nat) returns (m: nat)
    requires RootOf(n) < NUM_PAGEREFPAGES && n !in s.refs
    ensures FirstFree(s, m)
  {
    hide RootOf;
    if k: nat :| k < n && k !in s.refs {
      NumberOrder(n, k);
      m := LeastFree(s, k);
    } else {
      m := n;
    }
  }

  // A thread with its page and a number for it can install the page.
  lemma CanPlace(s: Sys, t: Thread, ref: nat, page: nat, kind: Kind, cs: nat) returns (s': Sys, mid: Heap)
    requires SysOk(s) && t in s.threads && HeldBy(s.threads[t], page)
             && (ref !in s.refs || Reserving(s.threads[t], ref))
    requires SmallerSize(kind) < cs + GUARD_OVERHEAD <= BlockSize(kind)
    ensures Placed(s, s', t, ref, page, kind, cs, mid)
  {
    InstallReady(s, t, ref, page);
    assert |s.heap.sizes| == NSIZES;
    hide HeapOk, PagesOwned, RefsOwned, HeldBy, Reserving, NewPageStep, AllocStep, SmallerSize, BlockSize,
         PageRef.Addr, SysOk;
    var h';
    mid, h' := CanInstall(s.heap, ref, page, kind, cs);
    s' := s.(heap := h', refs := s.refs[ref := Installed], threads := s.threads[t := Idle],
      granted := s.granted[page := HeapPage(ref)]);
  }

  /**
   In every reachable state, a thread inside the allocator can take its next step, whatever the
   others have done since it dropped the lock: no assertion on its way back to the lock blocks it.
   */
  lemma NeverStuck(s: Sys, t: Thread) returns (s': Sys, a: Action)
    requires Reachable(s) && t in s.threads && !s.threads[t].Idle?
    ensures Step(s, s', t, a)
  {
    AlwaysOk(s);
    var ph := s.threads[t];
    RefInRange(s, t);
    hide Reachable, SysOk, Step, RequestOk, RootOf;
    if ph.HasPage? {
      s', a := PageNext(s, t);
    } else if ph.Growing? || ph.Grown? {
      assert Reserving(ph, ph.ref);
      s', a := NumberNext(s, t);
    } else {
      s', a := BackNext(s, t);
    }
  }

  lemma BackNext(s: Sys, t: Thread) returns (s': Sys, a: Action)
    requires SysOk(s) && t in s.threads && RequestOk(s.threads[t]) && |s.rootpage| == NUM_PAGEREFPAGES
    requires var ph := s.threads[t]; ph.Wanting? || ph.Spilling? || ph.Placing? || ph.Returning?
    ensures Step(s, s', t, a)
  {
    hide SysOk, Placed, RootOf, SmallerSize, BlockSize, AllocStep, FreeStep, DropStep, WriteStep, InRun, Fresh,
         ReleaseOk, FirstFree;
    var ph := s.threads[t];
    if ph.Placing? {
      var mid;
      s', mid := CanPlace(s, t, ph.ref, ph.page, ph.kind, ph.cs);
      a := Place(mid);
    } else if ph.Wanting? {
      a, s' := NoPage, s.(threads := s.threads[t := Idle]);
    } else if ph.Spilling? {
      a, s' := Spill, s.(threads := s.threads[t := Placing(ph.kind, ph.cs, ph.page, ph.ref)],
        granted := s.granted - {ph.va});
    } else {
      a, s' := Return, s.(threads := s.threads[t := Idle], granted := s.granted - {ph.page});
    }
  }

  lemma RefInRange(s: Sys, t: Thread)
    requires SysOk(s) && t in s.threads
    ensures |s.rootpage| == NUM_PAGEREFPAGES && RequestOk(s.threads[t])
    ensures forall n: nat | Reserving(s.threads[t], n) :: RootOf(n) < NUM_PAGEREFPAGES
  {
    hide HeapOk, PagesOwned, RootOf, Reserving, RequestOk;
    assert forall n: nat | Reserving(s.threads[t], n) :: n in s.refs && s.refs[n] == Reserved(t);
  }

  lemma NumberNext(s: Sys, t: Thread) returns (s': Sys, a: Action)
    requires SysOk(s) && t in s.threads && (s.threads[t].Growing? || s.threads[t].Grown?) && RequestOk(s.threads[t])
    requires |s.rootpage| == NUM_PAGEREFPAGES && RootOf(s.threads[t].ref) < NUM_PAGEREFPAGES
    ensures Step(s, s', t, a)
  {
    hide SysOk, Placed, RootOf, SmallerSize, BlockSize, AllocStep, FreeStep, DropStep, WriteStep, InRun, Fresh,
         ReleaseOk, FirstFree;
    var ph := s.threads[t];
    if ph.Grown? {
      s', a := AttachNext(s, t);
    } else if s.rootpage[RootOf(ph.ref)] == 0 {
      a, s' := NoRefPage, s.(threads := s.threads[t := Returning(ph.page)], refs := s.refs[ph.ref := Lost]);
    } else {
      var mid;
      s', mid := CanPlace(s, t, ph.ref, ph.page, ph.kind, ph.cs);
      a := LateRefPage(mid);
    }
  }

  lemma AttachNext(s: Sys, t: Thread) returns (s': Sys, a: Action)
    requires SysOk(s) && t in s.threads && s.threads[t].Grown? && RequestOk(s.threads[t])
    requires |s.rootpage| == NUM_PAGEREFPAGES && RootOf(s.threads[t].ref) < NUM_PAGEREFPAGES
    ensures Step(s, s', t, a)
  {
    hide SysOk, Placed, RootOf, SmallerSize, BlockSize, AllocStep, FreeStep, DropStep, WriteStep, InRun, Fresh,
         ReleaseOk, FirstFree;
    var ph := s.threads[t];
    if s.rootpage[RootOf(ph.ref)] == 0 {
      AttachKeeps(s, t, ph);
      var mid;
      s', mid := CanPlace(Attached(s, t, ph), t, ph.ref, ph.page, ph.kind, ph.cs);
      a := Attach(mid);
    } else {
      a, s' := Race, s.(threads := s.threads[t := Spilling(ph.kind, ph.cs, ph.page, ph.ref, ph.va)]);
    }
  }

  lemma PageNext(s: Sys, t: Thread) returns (s': Sys, a: Action)
    requires SysOk(s) && t in s.threads && s.threads[t].HasPage? && RequestOk(s.threads[t])
             && |s.rootpage| == NUM_PAGEREFPAGES
    ensures Step(s, s', t, a)
  {
    var ph := s.threads[t];
    hide SysOk, Placed, RootOf, SmallerSize, BlockSize, AllocStep, FreeStep, DropStep, WriteStep, InRun, Fresh,
         ReleaseOk;
    if n: nat :| RootOf(n) < NUM_PAGEREFPAGES && n !in s.refs {
      var ref := LeastFree(s, n);
      if s.rootpage[RootOf(ref)] == 0 {
        a, s' := Reserve(ref), s.(threads := s.threads[t := Growing(ph.kind, ph.cs, ph.page, ref)],
          refs := s.refs[ref := Reserved(t)]);
      } else {
        var mid;
        s', mid := CanPlace(s, t, ref, ph.page, ph.kind, ph.cs);
        a := Install(ref, mid);
      }
    } else {
      a, s' := NoRef, s.(threads := s.threads[t := Returning(ph.page)]);
    }
  }

  // ---------------------------------------------------------------- when the assertion holds

  lemma {:induction false} NoneLost(states: seq<Sys>, acts: seq<(Thread, Action)>, n: nat)
    requires Run(states, acts) && n <= |acts| && forall i | 0 <= i < n :: !acts[i].1.NoRefPage?
    ensures forall m: nat | m in states[n].refs :: !states[n].refs[m].Lost?
  {
    hide Step, SysOk;
    if n > 0 {
      hide Init;
      NoneLost(states, acts, n - 1);
      StaysFound(states[n - 1], states[n], acts[n - 1].0, acts[n - 1].1);
    }
  }

  lemma StaysFound(s: Sys, s': Sys, t: Thread, a: Action)
    requires Step(s, s', t, a) && !a.NoRefPage? && forall m: nat | m in s.refs :: !s.refs[m].Lost?
    ensures forall m: nat | m in s'.refs :: !s'.refs[m].Lost?
  {
    hide NewPageStep, AllocStep, FreeStep, DropStep, WriteStep, ReleaseOk, FirstFree, RequestOk, RootOf, InRun,
         PageRef.Addr;
  }

  /**
   In every run in which alloc_kpages never refused a page of pagerefs, freepageref's assertion
   holds whenever no thread is getting such a page.
   */
  lemma ReleaseSafe(states: seq<Sys>, acts: seq<(Thread, Action)>, n: nat, p: nat)
    requires Run(states, acts) && n <= |acts| && forall i | 0 <= i < n :: !acts[i].1.NoRefPage?
    requires forall t: Thread | t in states[n].threads :: !states[n].threads[t].Growing? && !states[n].threads[t].Grown?
    requires p in states[n].heap.refs
    ensures ReleaseOk(states[n], p)
  {
    hide Step, Init, HeapOk, PagesOwned, RootOf, RequestOk, PageInRam, PageRef.Addr;
    NoneLost(states, acts, n);
    RunKeeps(states, acts, n);
    var s := states[n];
    forall m: nat | m in s.refs && RootOf(m) < RootOf(p) && RootOf(m) < |s.rootpage|
      ensures s.rootpage[RootOf(m)] != 0
    {
      if !s.refs[m].Installed? {
        var t := s.refs[m].t;
        assert s.refs[m] == Reserved(t) && Reserving(s.threads[t], m);
        assert RootSeen(s.threads[t], s.rootpage);
      }
    }
  }

  // An empty heap, one thread, and the pagerefs below k lost.
  function LostState(k: nat, ph: Phase, granted: map<nat, Owner>): Sys {
    Sys(Heap(seq(3 * PAGE_SIZE, i => 0), map[], seq(NSIZES, i => []), [], map[], map[]),
        seq(NUM_PAGEREFPAGES, i => 0), LostRefs(k), map[0 := ph], map[], granted)
  }

  function LostRefs(k: nat): (m: map<nat, RefUse>)
    ensures forall n: nat :: n in m <==> n < k
    ensures forall n: nat | n in m :: m[n] == Lost
  {
    if k == 0 then map[] else LostRefs(k - 1)[k - 1 := Lost]
  }

  // Each kmalloc that gets its page but no page of pagerefs loses one pageref of root 0.
  lemma {:induction false} LostReachable(k: nat)
    requires k <= NPAGEREFS_PER_PAGE
    ensures Reachable(LostState(k, Idle, map[]))
  {
    hide Reachable, Step, LostRefs;
    if k == 0 {
      NothingLost();
    } else {
      var j := k - 1;
      var page := PAGE_SIZE;
      LostReachable(j);
      LostUpTo(j, page);
      var s3 := LostState(j, Growing(0, 8, page, j), map[page := Held(0)]).(refs := LostRefs(j)[j := Reserved(0)]);
      var s4 := LostState(k, Returning(page), map[page := Held(0)]);
      ReachableStep(LostState(j, HasPage(0, 8, page), map[page := Held(0)]), s3, 0, Reserve(j));
      LoseOne(j, s3, s4);
      ReachableStep(s3, s4, 0, NoRefPage);
      ReturnOne(k, page);
      ReachableStep(s4, LostState(k, Idle, map[]), 0, Return);
    }
  }

  lemma NothingLost()
    ensures Reachable(LostState(0, Idle, map[]))
  {
    hide Step;
    var s := LostState(0, Idle, map[]);
    var acts: seq<(Thread, Action)> := [];
    assert LostRefs(0) == map[];
    assert Run([s], acts) && [s][|acts|] == s;
  }

  // From an idle state with j pagerefs lost: no free block, and a page is obtained.
  lemma LostUpTo(j: nat, page: nat)
    requires j <= NPAGEREFS_PER_PAGE && page == PAGE_SIZE && Reachable(LostState(j, Idle, map[]))
    ensures Reachable(LostState(j, HasPage(0, 8, page), map[page := Held(0)]))
    ensures j < NPAGEREFS_PER_PAGE ==>
              Step(LostState(j, HasPage(0, 8, page), map[page := Held(0)]),
                   LostState(j, Growing(0, 8, page, j), map[page := Held(0)]).(refs := LostRefs(j)[j := Reserved(0)]),
                     0, Reserve(j))
  {
    hide Reachable, LostRefs;
    var s0 := LostState(j, Idle, map[]);
    var s1 := LostState(j, Wanting(0, 8), map[]);
    var s2 := LostState(j, HasPage(0, 8, page), map[page := Held(0)]);
    assert s1.threads == s0.threads[0 := Wanting(0, 8)];
    ReachableStep(s0, s1, 0, Miss(0, 8));
    assert s2.threads == s1.threads[0 := HasPage(0, 8, page)] && s2.granted == s1.granted[page := Held(0)];
    ReachableStep(s1, s2, 0, GetPage(page));
    if j < NPAGEREFS_PER_PAGE {
      assert FirstFree(s2, j);
      assert map[0 := Growing(0, 8, page, j)] == s2.threads[0 := Growing(0, 8, page, j)];
    }
  }

  lemma LoseOne(j: nat, s3: Sys, s4: Sys)
    requires j < NPAGEREFS_PER_PAGE
    requires s3 == LostState(j, Growing(0, 8, PAGE_SIZE, j),
             map[PAGE_SIZE := Held(0)]).(refs := LostRefs(j)[j := Reserved(0)])
    requires s4 == LostState(j + 1, Returning(PAGE_SIZE), map[PAGE_SIZE := Held(0)])
    ensures Step(s3, s4, 0, NoRefPage)
  {
    hide LostRefs;
    assert s4.refs == s3.refs[j := Lost];
    assert s4.threads == s3.threads[0 := Returning(PAGE_SIZE)];
  }

  lemma ReturnOne(k: nat, page: nat)
    ensures Step(LostState(k, Returning(page), map[page := Held(0)]), LostState(k, Idle, map[]), 0, Return)
  {
    hide LostRefs;
    assert map[0 := Returning(page)][0 := Idle] == map[0 := Idle];
    assert map[page := Held(0)] - {page} == map[];
  }

  /**
   freepageref's assertion can fail: after 256 refusals root 0 is full and has no page, so the
   next page is installed under root 1, and kfree of the only block on it, which is a legal step
   of the heap, trips over root 0.
   */
  lemma ReleaseCanFail() returns (s: Sys, h: Heap)
    ensures Reachable(s) && 0 in s.threads && s.threads[0].Idle?
    ensures IsLive(s.heap, 256, 255) && DropStep(s.heap, h, 256, 255) && !ReleaseOk(s, 256)
  {
    hide Reachable, LostRefs, NewPageStep, AllocStep;
    var k := NPAGEREFS_PER_PAGE;
    var page, va := PAGE_SIZE, 2 * PAGE_SIZE;
    LostReachable(k);
    LostUpTo(k, page);
    var s2 := LostState(k, HasPage(0, 8, page), map[page := Held(0)]);
    var s3 := s2.(threads := s2.threads[0 := Growing(0, 8, page, k)], refs := s2.refs[k := Reserved(0)]);
    assert FirstFree(s2, k);
    ReachableStep(s2, s3, 0, Reserve(k));
    var s4 := s3.(threads := s3.threads[0 := Grown(0, 8, page, k, va)], granted := s3.granted[va := Spare(0)]);
    ReachableStep(s3, s4, 0, GetRefPage(va));
    var mid, h' := CanInstall(s4.heap, k, page, 0, 8);
    s := s4.(rootpage := s4.rootpage[1 := va], heap := h', refs := s4.refs[k := Installed],
      threads := s4.threads[0 := Idle],
             granted := s4.granted[va := RootPage(1)][page := HeapPage(k)]);
    AttachPlaces(s4, s, page, va, mid);
    ReachableStep(s4, s, 0, Attach(mid));
    h := AttachTrips(s4, s, mid);
  }

  lemma AttachPlaces(s: Sys, s': Sys, page: nat, va: nat, mid: Heap)
    requires 0 in s.threads && s.threads[0] == Grown(0, 8, page, 256, va) && |s.rootpage| == NUM_PAGEREFPAGES
             && s.rootpage[1] == 0
    requires NewPageStep(s.heap, mid, 256, page, 0) && AllocStep(mid, s'.heap, 256, 8)
    requires s' == s.(rootpage := s.rootpage[1 := va], heap := s'.heap, refs := s.refs[256 := Installed],
                      threads := s.threads[0 := Idle], granted := s.granted[va := RootPage(1)][page := HeapPage(256)])
    ensures Step(s, s', 0, Attach(mid))
  {
    hide NewPageStep, AllocStep;
    var ph := s.threads[0];
    assert s.threads[0 := Placing(0, 8, page, 256)][0 := Idle] == s.threads[0 := Idle];
  }

  lemma AttachTrips(s: Sys, s': Sys, mid: Heap) returns (h: Heap)
    requires 0 in s.threads && s.threads[0].Grown? && s.threads[0].ref == 256 && 0 in s.refs
    requires |s.rootpage| == NUM_PAGEREFPAGES && s.rootpage[0] == 0 && Step(s, s', 0, Attach(mid))
    requires s.threads[0].kind == 0
    ensures IsLive(s'.heap, 256, 255) && DropStep(s'.heap, h, 256, 255) && !ReleaseOk(s', 256)
  {
    hide PageOk, PageRef.Addr, PageRef.Tag, Guarded, BlockAddr, BlockSize, SmallerSize, RemoveFrom;
    assert s'.rootpage[RootOf(0)] == 0 && 0 in s'.refs;
    assert NumBlocks(0) == 256 by {
      SixteenByteBlocks();
    }
    hide NumBlocks;
    var g := s'.heap;
    SameWord(mid.refs[256], g.refs[256]);
    assert mid.free[256][0] == 255 && g.live[256].Keys == {255};
    var r := g.refs[256];
    h := g.(refs := g.refs - {256}, free := g.free - {256}, live := g.live - {256},
            all := RemoveFrom(g.all, 256), sizes := g.sizes[r.Tag() := RemoveFrom(g.sizes[r.Tag()], 256)]);
  }

  lemma SixteenByteBlocks()
    ensures NumBlocks(0) == 256
  {}
}
