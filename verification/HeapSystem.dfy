/**
 kmalloc and kfree run by any number of threads. A step is one stretch of code
 between two points where kmalloc_spinlock is taken or dropped, so anything may
 happen in between, in particular while a thread is inside alloc_kpages.
 */
module HeapSystem {
  import opened HeapMemory
  import opened HeapPage
  import opened HeapBlocks
  import opened Heap
  import opened PageRefs

  type Thread = nat

  /**
   Where a thread is when it does not hold the lock:
   Wanting: the lists had no free block, it is calling alloc_kpages;
   HasPage: it has a page, not yet a pageref;
   Growing: it has marked pageref number ref in use and is getting a page of pagerefs;
   Grown: that page came, at va; Spilling: another thread was faster, va goes back;
   Placing: va is back, it is retaking the lock; Returning: a page is going back.
   */
  datatype Phase =
    | Idle
    | Wanting(kind: Kind, cs: nat)
    | HasPage(kind: Kind, cs: nat, page: nat)
    | Growing(kind: Kind, cs: nat, page: nat, ref: nat)
    | Grown(kind: Kind, cs: nat, page: nat, ref: nat, va: nat)
    | Spilling(kind: Kind, cs: nat, page: nat, ref: nat, va: nat)
    | Placing(kind: Kind, cs: nat, page: nat, ref: nat)
    | Returning(page: nat)

  // Who a page obtained from alloc_kpages belongs to.
  datatype Owner = HeapPage(p: nat) | RootPage(w: nat) | Held(t: Thread) | Spare(t: Thread) | Big(address: nat)

  // What a pageref marked in use is for; Lost after its page of pagerefs could not be had.
  datatype RefUse = Installed | Reserved(t: Thread) | Lost

  /**
   rootpage and refs are the pageref pool (0 for a root without a page; the numbers in use);
   big the whole-page allocations with their page counts; granted every page alloc_kpages has
   handed out and free_kpages has not taken back.
   */
  datatype Sys = Sys(
    heap: Heap,
    rootpage: seq<nat>,
    refs: map<nat, RefUse>,
    threads: map<Thread, Phase>,
    big: map<nat, nat>,
    granted: map<nat, Owner>)

  // Pageref number n is entry n % 256 of root n / 256.
  function RootOf(n: nat): nat {
    n / NPAGEREFS_PER_PAGE
  }

  predicate Holds(s: Sys, o: Owner, page: nat) {
    match o
    case HeapPage(p) => p in s.heap.refs && s.heap.refs[p].Addr() == page
    case RootPage(w) => w < |s.rootpage| && s.rootpage[w] == page != 0
    case Held(t) => t in s.threads && HeldBy(s.threads[t], page)
    case Spare(t) => t in s.threads && SpareBy(s.threads[t], page)
    case Big(a) => a in s.big && InRun(a, s.big[a], page)
  }

  predicate HeldBy(ph: Phase, page: nat) {
    !ph.Idle? && !ph.Wanting? && ph.page == page
  }

  predicate SpareBy(ph: Phase, page: nat) {
    (ph.Grown? || ph.Spilling?) && ph.va == page
  }

  // The pages of a whole-page allocation of n pages at a.
  predicate InRun(a: nat, n: nat, page: nat) {
    a <= page < a + n * PAGE_SIZE && (page - a) % PAGE_SIZE == 0
  }

  // A thread between marking a pageref and using it.
  predicate Reserving(ph: Phase, n: nat) {
    (ph.Growing? || ph.Grown? || ph.Spilling? || ph.Placing?) && ph.ref == n
  }

  // A thread that has seen a page under its number's root keeps seeing one.
  predicate RootSeen(ph: Phase, rootpage: seq<nat>) {
    ph.Spilling? || ph.Placing? ==> RootOf(ph.ref) < |rootpage| && rootpage[RootOf(ph.ref)] != 0
  }

  // Every page handed out has exactly one owner, and every owner's page is handed out.
  ghost predicate PagesOwned(s: Sys) {
    forall o: Owner, page: nat :: Holds(s, o, page) <==> page in s.granted && s.granted[page] == o
  }

  // Every pageref marked in use is installed, reserved by one thread, or lost.
  ghost predicate RefsOwned(s: Sys) {
    && |s.rootpage| == NUM_PAGEREFPAGES
    && (forall n: nat | n in s.refs :: RootOf(n) < NUM_PAGEREFPAGES)
    && (forall n: nat :: n in s.heap.refs <==> n in s.refs && s.refs[n].Installed?)
    && (forall n: nat | n in s.refs && s.refs[n].Installed? :: s.rootpage[RootOf(n)] != 0)
    && (forall n: nat, t: Thread :: n in s.refs && s.refs[n] == Reserved(t) <==>
         t in s.threads && Reserving(s.threads[t], n))
    && (forall t: Thread | t in s.threads :: RootSeen(s.threads[t], s.rootpage))
  }

  // What a thread carries fits the class it asked for.
  predicate RequestOk(ph: Phase) {
    ph.Idle? || ph.Returning? || (LABEL_PTROFFSET <= ph.cs
      && SmallerSize(ph.kind) < ph.cs + GUARD_OVERHEAD <= BlockSize(ph.kind))
  }

  // Pages are aligned, not page 0, and inside memory.
  predicate PageInRam(top: nat, page: nat) {
    page % PAGE_SIZE == 0 && PAGE_SIZE <= page && page + PAGE_SIZE <= top <= WORD_LIMIT
  }

  ghost predicate SysOk(s: Sys) {
    && HeapOk(s.heap)
    && PagesOwned(s)
    && RefsOwned(s)
    && (forall page: nat | page in s.granted :: PageInRam(|s.heap.mem|, page))
    && (forall t: Thread | t in s.threads :: RequestOk(s.threads[t]))
    && (forall a: nat | a in s.big :: a % PAGE_SIZE == 0)
    && (forall p: nat | p in s.heap.refs :: p in s.heap.live && s.heap.live[p].Keys != {})
  }

  // ---------------------------------------------------------------- steps

  datatype Action =
    | Hit(p: nat, cs: nat)
    | Miss(kind: Kind, cs: nat)
    | GetPage(page: nat)
    | NoPage
    | Install(ref: nat, mid: Heap)
    | NoRef
    | Reserve(ref: nat)
    | GetRefPage(va: nat)
    | NoRefPage
    | LateRefPage(mid: Heap)
    | Attach(mid: Heap)
    | Race
    | Spill
    | Place(mid: Heap)
    | Return
    | Free(p: nat, b: nat)
    | Drop(p: nat, b: nat)
    | BigAlloc(a: nat, n: nat)
    | BigFree(a: nat)
    | Write(p: nat, b: nat, i: nat, x: Byte)

  // A page alloc_kpages may return: usable memory that nobody has been given.
  predicate Fresh(s: Sys, page: nat) {
    page !in s.granted && PageInRam(|s.heap.mem|, page)
  }

  // The number allocpageref finds: the lowest one not in use.
  ghost predicate FirstFree(s: Sys, n: nat) {
    RootOf(n) < NUM_PAGEREFPAGES && n !in s.refs && forall m: nat | m < n :: m in s.refs
  }

  // freepageref's assertion on roots without a page, before the root that holds number p.
  ghost predicate ReleaseOk(s: Sys, p: nat) {
    forall n: nat | n in s.refs && RootOf(n) < RootOf(p) && RootOf(n) < |s.rootpage| :: s.rootpage[RootOf(n)] != 0
  }

  // The fresh page becomes a heap page under number ref and its first block is handed out.
  ghost predicate Placed(s: Sys, s': Sys, t: Thread, ref: nat, page: nat, kind: Kind, cs: nat, mid: Heap) {
    && NewPageStep(s.heap, mid, ref, page, kind) && AllocStep(mid, s'.heap, ref, cs)
    && s' == s.(heap := s'.heap, refs := s.refs[ref := Installed], threads := s.threads[t := Idle],
                granted := s.granted[page := HeapPage(ref)])
  }

  // The pageref page va becomes root w's page, while t keeps its reservation.
  function Attached(s: Sys, t: Thread, ph: Phase): Sys
    requires ph.Grown? && RootOf(ph.ref) < |s.rootpage|
  {
    s.(rootpage := s.rootpage[RootOf(ph.ref) := ph.va], granted := s.granted[ph.va := RootPage(RootOf(ph.ref))],
       threads := s.threads[t := Placing(ph.kind, ph.cs, ph.page, ph.ref)])
  }

  ghost predicate Step(s: Sys, s': Sys, t: Thread, a: Action) {
    && t in s.threads && |s.rootpage| == NUM_PAGEREFPAGES
    && var ph := s.threads[t];
       match a
       case Hit(p, cs) =>
         ph.Idle? && LABEL_PTROFFSET <= cs && AllocStep(s.heap, s'.heap, p, cs) && s' == s.(heap := s'.heap)
       case Miss(kind, cs) =>
         && ph.Idle? && RequestOk(Wanting(kind, cs))
         && (forall p: nat | p in s.heap.refs && s.heap.refs[p].Tag() == kind :: s.heap.refs[p].nfree == 0)
         && s' == s.(threads := s.threads[t := Wanting(kind, cs)])
       case GetPage(page) =>
         && ph.Wanting? && Fresh(s, page)
         && s' == s.(threads := s.threads[t := HasPage(ph.kind, ph.cs, page)], granted := s.granted[page := Held(t)])
       case NoPage =>
         ph.Wanting? && s' == s.(threads := s.threads[t := Idle])
       case Install(ref, mid) =>
         && ph.HasPage? && FirstFree(s, ref) && s.rootpage[RootOf(ref)] != 0
         && Placed(s, s', t, ref, ph.page, ph.kind, ph.cs, mid)
       case NoRef =>
         && ph.HasPage? && (forall n: nat | RootOf(n) < NUM_PAGEREFPAGES :: n in s.refs)
         && s' == s.(threads := s.threads[t := Returning(ph.page)])
       case Reserve(ref) =>
         && ph.HasPage? && FirstFree(s, ref) && s.rootpage[RootOf(ref)] == 0
         && s' == s.(threads := s.threads[t := Growing(ph.kind, ph.cs, ph.page, ref)],
           refs := s.refs[ref := Reserved(t)])
       case GetRefPage(va) =>
         && ph.Growing? && Fresh(s, va)
         && s' == s.(threads := s.threads[t := Grown(ph.kind, ph.cs, ph.page, ph.ref, va)],
           granted := s.granted[va := Spare(t)])
       case NoRefPage =>
         && ph.Growing? && RootOf(ph.ref) < NUM_PAGEREFPAGES && s.rootpage[RootOf(ph.ref)] == 0
         && s' == s.(threads := s.threads[t := Returning(ph.page)], refs := s.refs[ph.ref := Lost])
       case LateRefPage(mid) =>
         && ph.Growing? && RootOf(ph.ref) < NUM_PAGEREFPAGES && s.rootpage[RootOf(ph.ref)] != 0
         && Placed(s, s', t, ph.ref, ph.page, ph.kind, ph.cs, mid)
       case Attach(mid) =>
         && ph.Grown? && RootOf(ph.ref) < NUM_PAGEREFPAGES && s.rootpage[RootOf(ph.ref)] == 0
         && Placed(Attached(s, t, ph), s', t, ph.ref, ph.page, ph.kind, ph.cs, mid)
       case Race =>
         && ph.Grown? && RootOf(ph.ref) < NUM_PAGEREFPAGES && s.rootpage[RootOf(ph.ref)] != 0
         && s' == s.(threads := s.threads[t := Spilling(ph.kind, ph.cs, ph.page, ph.ref, ph.va)])
       case Spill =>
         && ph.Spilling?
         && s' == s.(threads := s.threads[t := Placing(ph.kind, ph.cs, ph.page, ph.ref)],
           granted := s.granted - {ph.va})
       case Place(mid) =>
         ph.Placing? && Placed(s, s', t, ph.ref, ph.page, ph.kind, ph.cs, mid)
       case Return =>
         ph.Returning? && s' == s.(threads := s.threads[t := Idle], granted := s.granted - {ph.page})
       case Free(p, b) =>
         ph.Idle? && FreeStep(s.heap, s'.heap, p, b) && s' == s.(heap := s'.heap)
       case Drop(p, b) =>
         && ph.Idle? && DropStep(s.heap, s'.heap, p, b) && ReleaseOk(s, p)
         && var page := s.heap.refs[p].Addr();
            s' == s.(heap := s'.heap, refs := s.refs - {p}, threads := s.threads[t := Returning(page)],
                     granted := s.granted[page := Held(t)])
       case BigAlloc(at, n) =>
         && ph.Idle? && at !in s.big && at % PAGE_SIZE == 0 && (forall page: nat | InRun(at, n, page) :: Fresh(s, page))
         && (forall page: nat :: page in s'.granted <==> page in s.granted || InRun(at, n, page))
         && (forall page: nat | page in s'.granted :: s'.granted[page] == if InRun(at, n, page) then Big(at)
           else s.granted[page])
         && s' == s.(big := s.big[at := n], granted := s'.granted)
       case BigFree(at) =>
         && ph.Idle? && at in s.big
         && (forall page: nat :: page in s'.granted <==> page in s.granted && !InRun(at, s.big[at], page))
         && (forall page: nat | page in s'.granted :: s'.granted[page] == s.granted[page])
         && s' == s.(big := s.big - {at}, granted := s'.granted)
       case Write(p, b, i, x) =>
         WriteStep(s.heap, s'.heap, p, b, i, x) && s' == s.(heap := s'.heap)
  }

  // ---------------------------------------------------------------- each step keeps the invariant

  // A page changes hands: nothing else does.
  lemma PageMoves(s: Sys, s': Sys, page: nat, o': Owner)
    requires PagesOwned(s) && s'.granted == s.granted[page := o']
    requires forall o: Owner, q: nat :: Holds(s', o, q) <==> if q == page then o == o' else Holds(s, o, q)
    ensures PagesOwned(s')
  {
    hide Holds;
  }

  lemma PageReturned(s: Sys, s': Sys, page: nat)
    requires PagesOwned(s) && s'.granted == s.granted - {page}
    requires forall o: Owner, q: nat :: Holds(s', o, q) <==> q != page && Holds(s, o, q)
    ensures PagesOwned(s')
  {
    hide Holds;
  }

  lemma PagesStay(s: Sys, s': Sys)
    requires PagesOwned(s) && s'.granted == s.granted
    requires forall o: Owner, q: nat :: Holds(s', o, q) <==> Holds(s, o, q)
    ensures PagesOwned(s')
  {
    hide Holds;
  }

  // The heap changed inside its pages only.
  ghost predicate SamePages(h: Heap, h': Heap) {
    && h'.refs.Keys == h.refs.Keys && |h'.mem| == |h.mem|
    && (forall p: nat | p in h.refs :: h'.refs[p].Addr() == h.refs[p].Addr())
    && (forall p: nat | p in h'.refs :: p in h'.live && h'.live[p].Keys != {})
  }

  lemma HeapOnly(s: Sys, s': Sys)
    requires SysOk(s) && s' == s.(heap := s'.heap) && HeapOk(s'.heap) && SamePages(s.heap, s'.heap)
    ensures SysOk(s')
  {
    hide HeapOk, PageRef.Addr, RequestOk;
    PagesStay(s, s');
  }

  lemma AllocSamePages(h: Heap, h': Heap, p: nat, cs: nat)
    requires AllocStep(h, h', p, cs) && forall q: nat | q in h.refs :: q in h.live && h.live[q].Keys != {}
    ensures SamePages(h, h')
  {
    hide PageRef.Tag, BlockAddr, BlockSize, Guarded, SmallerSize, PageRef.Addr;
    SameWord(h.refs[p], PopRef(h.refs[p], h.free[p]));
    assert h.free[p][0] in h'.live[p];
  }

  lemma FreeSamePages(h: Heap, h': Heap, p: nat, b: nat)
    requires FreeStep(h, h', p, b) && forall q: nat | q in h.refs :: q in h.live && h.live[q].Keys != {}
    ensures SamePages(h, h')
  {
    hide PageRef.Tag, BlockAddr, BlockSize, Beef, Load32, PageRef.Addr;
    SameWord(h.refs[p], PushRef(h.refs[p], b));
    assert h'.live[p].Keys + {b} == h.live[p].Keys;
    assert h'.live[p].Keys != {};
  }

  // Steps inside one locked section that neither take nor give a page.
  lemma HeapSteps(s: Sys, s': Sys, t: Thread, a: Action)
    requires SysOk(s) && Step(s, s', t, a) && (a.Hit? || a.Free? || a.Write?)
    ensures SysOk(s')
  {
    hide AllocStep, FreeStep, WriteStep, HeapOk, SamePages, PagesOwned, RefsOwned, RequestOk, PageInRam;
    match a
    case Hit(p, cs) =>
      AllocKeeps(s.heap, s'.heap, p, cs);
      AllocSamePages(s.heap, s'.heap, p, cs);
      HeapOnly(s, s');
    case Free(p, b) =>
      FreeKeeps(s.heap, s'.heap, p, b);
      FreeSamePages(s.heap, s'.heap, p, b);
      HeapOnly(s, s');
    case Write(p, b, i, x) =>
      WriteKeeps(s.heap, s'.heap, p, b, i, x);
      WriteSamePages(s.heap, s'.heap, p, b, i, x);
      HeapOnly(s, s');
  }

  lemma WriteSamePages(h: Heap, h': Heap, p: nat, b: nat, i: nat, x: Byte)
    requires WriteStep(h, h', p, b, i, x) && forall q: nat | q in h.refs :: q in h.live && h.live[q].Keys != {}
    ensures SamePages(h, h')
  {
    hide PageRef.Tag, PageRef.Addr, BlockAddr;
  }

  // Only the owners Held(t) and Spare(t) depend on where thread t is.
  lemma HoldsMove(s: Sys, s': Sys, t: Thread)
    requires t in s.threads && t in s'.threads && s'.threads == s.threads[t := s'.threads[t]]
    requires s'.heap.refs == s.heap.refs && s'.rootpage == s.rootpage && s'.big == s.big
    ensures forall o: Owner, q: nat :: Holds(s', o, q) <==>
      if o == Held(t) then HeldBy(s'.threads[t], q) else if o == Spare(t) then SpareBy(s'.threads[t], q)
        else Holds(s, o, q)
  {
    hide HeldBy, SpareBy, PageRef.Addr, InRun;
  }

  lemma RefsMove(s: Sys, s': Sys, t: Thread)
    requires RefsOwned(s) && t in s.threads && t in s'.threads && s'.threads == s.threads[t := s'.threads[t]]
    requires s'.heap.refs == s.heap.refs && s'.rootpage == s.rootpage && s'.refs == s.refs
    requires forall n: nat :: Reserving(s'.threads[t], n) <==> Reserving(s.threads[t], n)
    requires RootSeen(s'.threads[t], s.rootpage)
    ensures RefsOwned(s')
  {
    hide Reserving, RootSeen, RootOf;
  }

  // A thread moves on, keeping the page and the pageref it holds.
  lemma MoveKeeps(s: Sys, s': Sys, t: Thread, ph: Phase)
    requires SysOk(s) && t in s.threads && s' == s.(threads := s.threads[t := ph]) && RequestOk(ph)
    requires forall q: nat :: HeldBy(ph, q) <==> HeldBy(s.threads[t], q)
    requires forall q: nat :: SpareBy(ph, q) <==> SpareBy(s.threads[t], q)
    requires forall n: nat :: Reserving(ph, n) <==> Reserving(s.threads[t], n)
    requires RootSeen(ph, s.rootpage)
    ensures SysOk(s')
  {
    hide HeapOk, HeldBy, SpareBy, Reserving, RootSeen, RefsOwned, RequestOk, PageInRam;
    HoldsMove(s, s', t);
    PagesStay(s, s');
    RefsMove(s, s', t);
  }

  // A thread is given a fresh page, as its page or as a spare one for pagerefs.
  lemma TakeKeeps(s: Sys, s': Sys, t: Thread, ph: Phase, page: nat, spare: bool)
    requires SysOk(s) && t in s.threads && RequestOk(ph) && Fresh(s, page)
    requires s' == s.(threads := s.threads[t := ph], granted := s.granted[page := if spare then Spare(t) else Held(t)])
    requires forall q: nat :: HeldBy(ph, q) <==> HeldBy(s.threads[t], q) || (!spare && q == page)
    requires forall q: nat :: SpareBy(ph, q) <==> SpareBy(s.threads[t], q) || (spare && q == page)
    requires forall n: nat :: Reserving(ph, n) <==> Reserving(s.threads[t], n)
    requires RootSeen(ph, s.rootpage)
    ensures SysOk(s')
  {
    hide HeapOk, HeldBy, SpareBy, Reserving, RootSeen, RefsOwned, RequestOk, PageInRam;
    HoldsMove(s, s', t);
    FreshUnowned(s, page);
    PageMoves(s, s', page, if spare then Spare(t) else Held(t));
    RefsMove(s, s', t);
  }

  lemma FreshUnowned(s: Sys, page: nat)
    requires PagesOwned(s) && page !in s.granted
    ensures forall o: Owner :: !Holds(s, o, page)
    ensures forall t: Thread | t in s.threads :: !HeldBy(s.threads[t], page) && !SpareBy(s.threads[t], page)
  {
    hide HeldBy, SpareBy;
    forall t: Thread | t in s.threads
      ensures !HeldBy(s.threads[t], page) && !SpareBy(s.threads[t], page)
    {
      assert !Holds(s, Held(t), page) && !Holds(s, Spare(t), page);
    }
  }

  // A thread hands a page back to free_kpages.
  lemma GiveKeeps(s: Sys, s': Sys, t: Thread, ph: Phase, page: nat, spare: bool)
    requires SysOk(s) && t in s.threads && RequestOk(ph)
    requires s' == s.(threads := s.threads[t := ph], granted := s.granted - {page})
    requires if spare then SpareBy(s.threads[t], page) else HeldBy(s.threads[t], page)
    requires forall q: nat :: HeldBy(ph, q) <==> HeldBy(s.threads[t], q) && (spare || q != page)
    requires forall q: nat :: SpareBy(ph, q) <==> SpareBy(s.threads[t], q) && (!spare || q != page)
    requires forall n: nat :: Reserving(ph, n) <==> Reserving(s.threads[t], n)
    requires RootSeen(ph, s.rootpage)
    ensures SysOk(s')
  {
    hide HeapOk, HeldBy, SpareBy, Reserving, RootSeen, RefsOwned, RequestOk, PageInRam;
    HoldsMove(s, s', t);
    OneOwner(s, page, if spare then Spare(t) else Held(t));
    OtherHolds(s, t);
    PageReturned(s, s', page);
    RefsMove(s, s', t);
  }

  lemma OneOwner(s: Sys, page: nat, o: Owner)
    requires PagesOwned(s) && Holds(s, o, page)
    ensures page in s.granted && s.granted[page] == o
    ensures forall o': Owner | o' != o :: !Holds(s, o', page)
  {
    hide Holds;
  }

  lemma OtherHolds(s: Sys, t: Thread)
    requires t in s.threads
    ensures forall q: nat :: Holds(s, Held(t), q) <==> HeldBy(s.threads[t], q)
    ensures forall q: nat :: Holds(s, Spare(t), q) <==> SpareBy(s.threads[t], q)
  {
    hide HeldBy, SpareBy;
  }

  // allocpageref marks a number in use; or gives up after it did.
  lemma RefKeeps(s: Sys, s': Sys, t: Thread, ph: Phase, ref: nat, use: RefUse)
    requires SysOk(s) && t in s.threads && RequestOk(ph) && RootOf(ref) < NUM_PAGEREFPAGES
    requires s' == s.(threads := s.threads[t := ph], refs := s.refs[ref := use])
    requires forall q: nat :: HeldBy(ph, q) <==> HeldBy(s.threads[t], q)
    requires forall q: nat :: SpareBy(ph, q) <==> SpareBy(s.threads[t], q)
    requires if use == Reserved(t) then ref !in s.refs else use == Lost && Reserving(s.threads[t], ref)
    requires forall n: nat :: Reserving(ph, n) <==> n == ref && use == Reserved(t)
    requires use == Reserved(t) ==> forall n: nat :: !Reserving(s.threads[t], n)
    requires RootSeen(ph, s.rootpage)
    ensures SysOk(s')
  {
    hide HeapOk, HeldBy, SpareBy, RootSeen, RequestOk, PageInRam, RootOf;
    HoldsMove(s, s', t);
    OtherHolds(s, t);
    PagesStay(s, s');
    RefMarked(s, s', t, ref, use);
  }

  lemma RefMarked(s: Sys, s': Sys, t: Thread, ref: nat, use: RefUse)
    requires RefsOwned(s) && t in s.threads && RootOf(ref) < NUM_PAGEREFPAGES
    requires t in s'.threads && s' == s.(threads := s.threads[t := s'.threads[t]], refs := s.refs[ref := use])
    requires if use == Reserved(t) then ref !in s.refs else use == Lost && Reserving(s.threads[t], ref)
    requires forall n: nat :: Reserving(s'.threads[t], n) <==> n == ref && use == Reserved(t)
    requires use == Reserved(t) ==> forall n: nat :: !Reserving(s.threads[t], n)
    requires RootSeen(s'.threads[t], s.rootpage)
    ensures RefsOwned(s')
  {
    hide RootSeen, RootOf;
    assert ref in s.refs ==> s.refs[ref] == Reserved(t);
    forall n: nat, u: Thread
      ensures n in s'.refs && s'.refs[n] == Reserved(u) <==> u in s'.threads && Reserving(s'.threads[u], n)
    {
      assert n in s.refs && s.refs[n] == Reserved(u) <==> u in s.threads && Reserving(s.threads[u], n);
    }
  }

  // ---------------------------------------------------------------- installing and dropping a page

  /**
   The thread about to install a page may do so: its number is not that of a heap page, and its
   page is usable memory that is no heap page's. These are what the locked code relies on.
   */
  lemma InstallReady(s: Sys, t: Thread, ref: nat, page: nat)
    requires SysOk(s) && t in s.threads && HeldBy(s.threads[t], page)
    requires ref !in s.refs || Reserving(s.threads[t], ref)
    ensures ref !in s.heap.refs && PageInRam(|s.heap.mem|, page)
    ensures forall q: nat | q in s.heap.refs :: s.heap.refs[q].Addr() != page
  {
    hide HeapOk, HeldBy, PageRef.Addr, RootSeen, RequestOk, PageInRam, RootOf;
    OtherHolds(s, t);
    OneOwner(s, page, Held(t));
    forall q: nat | q in s.heap.refs
      ensures s.heap.refs[q].Addr() != page
    {
      assert !Holds(s, HeapPage(q), page);
    }
    assert ref in s.refs ==> s.refs[ref] == Reserved(t);
  }

  lemma InstallHeap(h: Heap, mid: Heap, h': Heap, ref: nat, page: nat, kind: Kind, cs: nat)
    requires HeapOk(h) && NewPageStep(h, mid, ref, page, kind) && AllocStep(mid, h', ref, cs)
    requires forall q: nat | q in h.refs :: q in h.live && h.live[q].Keys != {}
    ensures HeapOk(h') && |h'.mem| == |h.mem|
    ensures h'.refs.Keys == h.refs.Keys + {ref} && h'.refs[ref].Addr() == page
    ensures forall q: nat | q in h.refs :: h'.refs[q].Addr() == h.refs[q].Addr()
    ensures forall q: nat | q in h'.refs :: q in h'.live && h'.live[q].Keys != {}
  {
    assert HeapOk(h') by {
      hide HeapOk, NewPageStep, AllocStep, PageRef.Addr;
      NewPageKeeps(h, mid, ref, page, kind);
      AllocKeeps(mid, h', ref, cs);
    }
    hide HeapOk, PageOk, PageRef.Addr, PageRef.Tag, Guarded, BlockAddr, BlockSize, NumBlocks, SmallerSize, Down;
    SameWord(mid.refs[ref], PopRef(mid.refs[ref], mid.free[ref]));
    assert mid.free[ref][0] in h'.live[ref];
  }

  lemma PlaceKeeps(s: Sys, s': Sys, t: Thread, ref: nat, page: nat, kind: Kind, cs: nat, mid: Heap)
    requires SysOk(s) && t in s.threads && HeldBy(s.threads[t], page) && (forall q: nat :: !SpareBy(s.threads[t], q))
    requires (ref !in s.refs && forall n: nat :: !Reserving(s.threads[t], n)) || Reserving(s.threads[t], ref)
    requires RootOf(ref) < NUM_PAGEREFPAGES && s.rootpage[RootOf(ref)] != 0
    requires Placed(s, s', t, ref, page, kind, cs, mid)
    ensures SysOk(s')
  {
    hide HeapOk, NewPageStep, AllocStep, PageRef.Addr, RootOf, PageInRam, PagesOwned, RefsOwned, HeldBy, SpareBy,
         Reserving;
    InstallReady(s, t, ref, page);
    InstallHeap(s.heap, mid, s'.heap, ref, page, kind, cs);
    PlacePages(s, s', t, ref, page);
    PlaceRefs(s, s', t, ref);
  }

  lemma PlacePages(s: Sys, s': Sys, t: Thread, ref: nat, page: nat)
    requires PagesOwned(s) && t in s.threads && HeldBy(s.threads[t], page)
             && (forall q: nat :: !SpareBy(s.threads[t], q))
    requires s'.heap.refs.Keys == s.heap.refs.Keys + {ref} && s'.heap.refs[ref].Addr() == page
    requires ref !in s.heap.refs && forall q: nat | q in s.heap.refs :: s'.heap.refs[q].Addr() == s.heap.refs[q].Addr()
    requires s' == s.(heap := s'.heap, refs := s'.refs, threads := s.threads[t := Idle],
             granted := s.granted[page := HeapPage(ref)])
    ensures PagesOwned(s')
  {
    hide PageRef.Addr, InRun;
    OtherHolds(s, t);
    OneOwner(s, page, Held(t));
    forall o: Owner, q: nat
      ensures Holds(s', o, q) <==> if q == page then o == HeapPage(ref) else Holds(s, o, q)
    {
      assert !SpareBy(s.threads[t], q) && (Holds(s, o, page) ==> o == Held(t));
    }
    PageMoves(s, s', page, HeapPage(ref));
  }

  lemma PlaceRefs(s: Sys, s': Sys, t: Thread, ref: nat)
    requires RefsOwned(s) && t in s.threads && RootOf(ref) < NUM_PAGEREFPAGES && s.rootpage[RootOf(ref)] != 0
    requires (ref !in s.refs && forall n: nat :: !Reserving(s.threads[t], n)) || Reserving(s.threads[t], ref)
    requires s'.heap.refs.Keys == s.heap.refs.Keys + {ref} && s'.rootpage == s.rootpage
    requires s'.refs == s.refs[ref := Installed] && s'.threads == s.threads[t := Idle]
    ensures RefsOwned(s')
  {
    hide RootSeen, RootOf;
    assert RootSeen(Idle, s.rootpage) by {
      RootOfIdle(s.rootpage);
    }
    assert ref in s.refs ==> s.refs[ref] == Reserved(t);
    forall n: nat, u: Thread
      ensures n in s'.refs && s'.refs[n] == Reserved(u) <==> u in s'.threads && Reserving(s'.threads[u], n)
    {
      assert n in s.refs && s.refs[n] == Reserved(u) <==> u in s.threads && Reserving(s.threads[u], n);
    }
  }

  lemma RootOfIdle(rootpage: seq<nat>)
    ensures RootSeen(Idle, rootpage)
  {}

  lemma AttachKeeps(s: Sys, t: Thread, ph: Phase)
    requires SysOk(s) && t in s.threads && ph == s.threads[t] && ph.Grown?
    requires RootOf(ph.ref) < NUM_PAGEREFPAGES && s.rootpage[RootOf(ph.ref)] == 0
    ensures SysOk(Attached(s, t, ph))
  {
    hide HeapOk, PageRef.Addr, RootOf, PagesOwned, HeldBy, Reserving;
    assert |s.rootpage| == NUM_PAGEREFPAGES;
    hide RefsOwned;
    OneOwner(s, ph.va, Spare(t));
    AttachPages(s, t, ph);
    AttachRefs(s, t, ph);
    assert RequestOk(ph);
  }

  lemma AttachPages(s: Sys, t: Thread, ph: Phase)
    requires PagesOwned(s) && t in s.threads && ph == s.threads[t] && ph.Grown?
    requires RootOf(ph.ref) < |s.rootpage| && s.rootpage[RootOf(ph.ref)] == 0
    requires ph.va != 0
    ensures PagesOwned(Attached(s, t, ph))
  {
    hide PageRef.Addr, InRun, RootOf;
    OtherHolds(s, t);
    assert SpareBy(ph, ph.va);
    OneOwner(s, ph.va, Spare(t));
    var s' := Attached(s, t, ph);
    forall o: Owner, q: nat
      ensures Holds(s', o, q) <==> if q == ph.va then o == RootPage(RootOf(ph.ref)) else Holds(s, o, q)
    {
      assert Holds(s, o, ph.va) ==> o == Spare(t);
    }
    PageMoves(s, s', ph.va, RootPage(RootOf(ph.ref)));
  }

  lemma AttachRefs(s: Sys, t: Thread, ph: Phase)
    requires RefsOwned(s) && t in s.threads && ph == s.threads[t] && ph.Grown? && ph.va != 0
    requires RootOf(ph.ref) < NUM_PAGEREFPAGES && s.rootpage[RootOf(ph.ref)] == 0
    ensures RefsOwned(Attached(s, t, ph))
  {
    hide RootOf;
    var s' := Attached(s, t, ph);
    forall n: nat, u: Thread
      ensures n in s'.refs && s'.refs[n] == Reserved(u) <==> u in s'.threads && Reserving(s'.threads[u], n)
    {
      assert n in s.refs && s.refs[n] == Reserved(u) <==> u in s.threads && Reserving(s.threads[u], n);
    }
    forall u: Thread | u in s'.threads
      ensures RootSeen(s'.threads[u], s'.rootpage)
    {
      assert RootSeen(s.threads[u], s.rootpage);
    }
  }

  lemma DropSysKeeps(s: Sys, s': Sys, t: Thread, p: nat, b: nat)
    requires SysOk(s) && Step(s, s', t, Drop(p, b))
    ensures SysOk(s')
  {
    hide HeapOk, PageRef.Addr, PageRef.Tag, RootOf, PageInRam, PagesOwned, RefsOwned, RemoveFrom;
    DropKeeps(s.heap, s'.heap, p, b);
    OneOwner(s, s.heap.refs[p].Addr(), HeapPage(p));
    DropPages(s, s', t, p);
    DropRefs(s, s', t, p);
  }

  lemma DropPages(s: Sys, s': Sys, t: Thread, p: nat)
    requires PagesOwned(s) && t in s.threads && s.threads[t].Idle? && p in s.heap.refs
             && s'.heap.refs == s.heap.refs - {p}
    requires var page := s.heap.refs[p].Addr();
             s' == s.(heap := s'.heap, refs := s'.refs, threads := s.threads[t := Returning(page)],
                      granted := s.granted[page := Held(t)])
    ensures PagesOwned(s')
  {
    hide PageRef.Addr, InRun, RootOf;
    var page := s.heap.refs[p].Addr();
    OneOwner(s, page, HeapPage(p));
    forall o: Owner, q: nat
      ensures Holds(s', o, q) <==> if q == page then o == Held(t) else Holds(s, o, q)
    {
      assert Holds(s, o, page) ==> o == HeapPage(p);
    }
    PageMoves(s, s', page, Held(t));
  }

  lemma DropRefs(s: Sys, s': Sys, t: Thread, p: nat)
    requires RefsOwned(s) && t in s.threads && s.threads[t].Idle? && p in s.heap.refs
    requires s'.heap.refs == s.heap.refs - {p} && s'.refs == s.refs - {p} && s'.rootpage == s.rootpage
    requires t in s'.threads && s'.threads[t].Returning? && s'.threads == s.threads[t := s'.threads[t]]
    ensures RefsOwned(s')
  {
    hide RootOf;
    assert s.refs[p].Installed?;
    forall n: nat, u: Thread
      ensures n in s'.refs && s'.refs[n] == Reserved(u) <==> u in s'.threads && Reserving(s'.threads[u], n)
    {
      assert n in s.refs && s.refs[n] == Reserved(u) <==> u in s.threads && Reserving(s.threads[u], n);
    }
  }

  lemma BigKeeps(s: Sys, s': Sys, t: Thread, a: Action)
    requires SysOk(s) && Step(s, s', t, a) && (a.BigAlloc? || a.BigFree?)
    ensures SysOk(s')
  {
    hide HeapOk, PageRef.Addr, PageRef.Tag, RootOf, InRun, RefsOwned, RequestOk, PageInRam, HeldBy, SpareBy;
    if a.BigAlloc? {
      assert PagesOwned(s') by {
        forall o: Owner, page: nat
          ensures Holds(s', o, page) <==> page in s'.granted && s'.granted[page] == o
        {
          assert Holds(s, o, page) <==> page in s.granted && s.granted[page] == o;
        }
      }
    } else {
      assert PagesOwned(s') by {
        forall o: Owner, page: nat
          ensures Holds(s', o, page) <==> page in s'.granted && s'.granted[page] == o
        {
          assert Holds(s, o, page) <==> page in s.granted && s.granted[page] == o;
          assert Holds(s, Big(a.a), page) <==> page in s.granted && s.granted[page] == Big(a.a);
        }
      }
    }
    assert RefsOwned(s') by {
      RefsSame(s, s');
    }
  }

  lemma RefsSame(s: Sys, s': Sys)
    requires RefsOwned(s) && s'.heap.refs == s.heap.refs && s'.refs == s.refs && s'.threads == s.threads
             && s'.rootpage == s.rootpage
    ensures RefsOwned(s')
  {
    hide RootOf, Reserving, RootSeen;
  }

  // ---------------------------------------------------------------- runs

  lemma PlacingSteps(s: Sys, s': Sys, t: Thread, a: Action)
    requires SysOk(s) && Step(s, s', t, a) && (a.Install? || a.LateRefPage? || a.Attach? || a.Place?)
    ensures SysOk(s')
  {
    hide HeapOk, NewPageStep, AllocStep, PagesOwned, PageInRam, RequestOk, RootOf;
    var ph := s.threads[t];
    assert RootSeen(ph, s.rootpage);
    if a.Install? {
      PlaceKeeps(s, s', t, a.ref, ph.page, ph.kind, ph.cs, a.mid);
    } else if a.Attach? {
      AttachKeeps(s, t, ph);
      PlaceKeeps(Attached(s, t, ph), s', t, ph.ref, ph.page, ph.kind, ph.cs, a.mid);
    } else {
      assert Reserving(ph, ph.ref);
      PlaceKeeps(s, s', t, ph.ref, ph.page, ph.kind, ph.cs, a.mid);
    }
  }

  lemma ThreadSteps(s: Sys, s': Sys, t: Thread, a: Action)
    requires SysOk(s) && Step(s, s', t, a)
    requires a.Miss? || a.NoPage? || a.NoRef? || a.Race? || a.GetPage? || a.GetRefPage?
    ensures SysOk(s')
  {
    hide HeapOk, PagesOwned, PageInRam, SmallerSize, BlockSize, RootOf;
    var ph := s.threads[t];
    assert RequestOk(ph) && RootSeen(ph, s.rootpage);
    if a.GetPage? {
      TakeKeeps(s, s', t, s'.threads[t], a.page, false);
    } else if a.GetRefPage? {
      TakeKeeps(s, s', t, s'.threads[t], a.va, true);
    } else {
      MoveKeeps(s, s', t, s'.threads[t]);
    }
  }

  lemma ReturnSteps(s: Sys, s': Sys, t: Thread, a: Action)
    requires SysOk(s) && Step(s, s', t, a) && (a.Reserve? || a.NoRefPage? || a.Return? || a.Spill?)
    ensures SysOk(s')
  {
    hide HeapOk, PagesOwned, PageInRam, SmallerSize, BlockSize, RootOf;
    var ph := s.threads[t];
    assert RequestOk(ph) && RootSeen(ph, s.rootpage);
    if a.Reserve? {
      RefKeeps(s, s', t, s'.threads[t], a.ref, Reserved(t));
    } else if a.NoRefPage? {
      RefKeeps(s, s', t, s'.threads[t], ph.ref, Lost);
    } else if a.Return? {
      GiveKeeps(s, s', t, s'.threads[t], ph.page, false);
    } else {
      GiveKeeps(s, s', t, s'.threads[t], ph.va, true);
    }
  }

  // Every step of any thread keeps the invariant.
  lemma StepKeeps(s: Sys, s': Sys, t: Thread, a: Action)
    requires SysOk(s) && Step(s, s', t, a)
    ensures SysOk(s')
  {
    hide SysOk, Step;
    if a.Hit? || a.Free? || a.Write? {
      HeapSteps(s, s', t, a);
    } else if a.Install? || a.LateRefPage? || a.Attach? || a.Place? {
      PlacingSteps(s, s', t, a);
    } else if a.Reserve? || a.NoRefPage? || a.Return? || a.Spill? {
      ReturnSteps(s, s', t, a);
    } else if a.Drop? {
      DropSysKeeps(s, s', t, a.p, a.b);
    } else if a.BigAlloc? || a.BigFree? {
      BigKeeps(s, s', t, a);
    } else {
      ThreadSteps(s, s', t, a);
    }
  }

  // Nothing allocated, nobody in the allocator.
  predicate Init(s: Sys) {
    && s.heap.refs == map[] && s.heap.free == map[] && s.heap.live == map[] && s.heap.all == []
    && s.heap.sizes == seq(NSIZES, i => [])
    && s.rootpage == seq(NUM_PAGEREFPAGES, i => 0)
    && s.refs == map[] && s.big == map[] && s.granted == map[]
    && forall t: Thread | t in s.threads :: s.threads[t].Idle?
  }

  // A run: the states a sequence of steps goes through, from an initial one.
  ghost predicate Run(states: seq<Sys>, acts: seq<(Thread, Action)>) {
    && |states| == |acts| + 1 && Init(states[0])
    && forall i | 0 <= i < |acts| :: Step(states[i], states[i + 1], acts[i].0, acts[i].1)
  }

  ghost predicate Reachable(s: Sys) {
    exists states, acts :: Run(states, acts) && states[|acts|] == s
  }

  lemma InitOk(s: Sys)
    requires Init(s)
    ensures SysOk(s)
  {
    hide PageOk, PageRef.Addr;
    assert HeapOk(s.heap);
  }

  lemma {:induction false} RunKeeps(states: seq<Sys>, acts: seq<(Thread, Action)>, n: nat)
    requires Run(states, acts) && n <= |acts|
    ensures SysOk(states[n])
  {
    hide SysOk, Step, Init;
    if n == 0 {
      InitOk(states[0]);
    } else {
      RunKeeps(states, acts, n - 1);
      StepKeeps(states[n - 1], states[n], acts[n - 1].0, acts[n - 1].1);
    }
  }

  // The invariant holds in every reachable state.
  lemma AlwaysOk(s: Sys)
    requires Reachable(s)
    ensures SysOk(s)
  {
    hide SysOk, Step, Init;
    var states, acts :| Run(states, acts) && states[|acts|] == s;
    RunKeeps(states, acts, |acts|);
  }

  lemma ReachableStep(s: Sys, s': Sys, t: Thread, a: Action)
    requires Reachable(s) && Step(s, s', t, a)
    ensures Reachable(s')
  {
    hide Step, Init;
    var states, acts :| Run(states, acts) && states[|acts|] == s;
    var states', acts' := states + [s'], acts + [(t, a)];
    assert Run(states', acts') && states'[|acts'|] == s';
  }

  /**
   In every reachable state, a block handed out shares no byte with another block, with a
   whole-page allocation, or with a page some thread is still setting up.
   */
  lemma AllocationsDisjoint(s: Sys, p: nat, b: nat, page: nat)
    requires Reachable(s) && IsLive(s.heap, p, b)
    requires page in s.granted && s.granted[page] != HeapPage(p)
    ensures s.heap.refs[p].Tag() < NSIZES
    ensures var at, size := BlockAddr(s.heap.refs[p], b), BlockSize(s.heap.refs[p].Tag());
            page + PAGE_SIZE <= at || at + size <= page
    ensures forall q: nat, c: nat | IsLive(s.heap, q, c) && (q != p || c != b) ::
              var r, u := s.heap.refs[p], s.heap.refs[q];
              u.Tag() < NSIZES && (BlockAddr(r, b) + BlockSize(r.Tag()) <= BlockAddr(u, c)
                || BlockAddr(u, c) + BlockSize(u.Tag()) <= BlockAddr(r, b))
  {
    hide HeapOk, PageRef.Addr, PageRef.Tag, RefsOwned, BlockAddr, BlockSize, RequestOk, Reachable;
    AlwaysOk(s);
    var r := s.heap.refs[p];
    InsideItsPage(s.heap, p, b);
    AlignedAddr(r);
    OneOwner(s, r.Addr(), HeapPage(p));
    AlignedApart(r.Addr(), page);
    forall q: nat, c: nat | IsLive(s.heap, q, c) && (q != p || c != b)
      ensures var r, u := s.heap.refs[p], s.heap.refs[q];
              u.Tag() < NSIZES && (BlockAddr(r, b) + BlockSize(r.Tag()) <= BlockAddr(u, c)
                || BlockAddr(u, c) + BlockSize(u.Tag()) <= BlockAddr(r, b))
    {
      LiveBlocksDisjoint(s.heap, p, b, q, c);
    }
  }

  lemma InsideItsPage(h: Heap, p: nat, b: nat)
    requires HeapOk(h) && IsLive(h, p, b)
    ensures h.refs[p].Tag() < NSIZES && h.refs[p].Addr() <= BlockAddr(h.refs[p], b)
    ensures BlockAddr(h.refs[p], b) + BlockSize(h.refs[p].Tag()) <= h.refs[p].Addr() + PAGE_SIZE
  {
    hide PageRef.Addr, PageRef.Tag, FreeBlockOk, LiveBlockOk, ChainShape, HeadOffset, BlockSize, NumBlocks, BlockAddr;
    assert PageOk(h.mem, h.refs[p], h.free[p], h.live[p]);
    ChainBlockInPage(h, p, b);
  }

  /**
   Nothing is leaked: when no thread is inside the allocator, every page ever obtained and not
   returned is a heap page with a live block, a page of pagerefs, or part of a whole-page
   allocation; and a pageref in use is some heap page's unless a page of pagerefs was refused.
   */
  lemma NothingLeaks(s: Sys, page: nat, n: nat)
    requires Reachable(s) && forall t: Thread | t in s.threads :: s.threads[t].Idle?
    ensures page in s.granted ==>
              match s.granted[page]
              case HeapPage(p) => p in s.heap.refs && s.heap.refs[p].Addr() == page && p in s.heap.live
                && s.heap.live[p].Keys != {}
              case RootPage(w) => w < |s.rootpage| && s.rootpage[w] == page
              case Big(a) => a in s.big && InRun(a, s.big[a], page)
              case _ => false
    ensures n in s.refs ==> n in s.heap.refs || s.refs[n].Lost?
  {
    hide HeapOk, PageRef.Addr, InRun, RootOf, PageInRam, Reachable;
    AlwaysOk(s);
    if page in s.granted {
      assert Holds(s, s.granted[page], page);
    }
    assert forall t: Thread :: !(t in s.threads && Reserving(s.threads[t], n));
  }

  // In every reachable state there are no more heap pages than pagerefs, as checksubpages asserts.
  lemma PagesCounted(s: Sys)
    requires Reachable(s)
    ensures |s.heap.all| <= TOTAL_PAGEREFS
  {
    hide PageOk, PageRef.Addr, PageRef.Tag, Reachable, PagesOwned;
    AlwaysOk(s);
    SeqAsSet(s.heap.all);
    RangeSize(TOTAL_PAGEREFS);
    forall p: nat | p in Elements(s.heap.all)
      ensures p in Range(TOTAL_PAGEREFS)
    {
      assert p in s.heap.all && p in s.heap.refs && p in s.refs;
    }
    SubsetSize(Elements(s.heap.all), Range(TOTAL_PAGEREFS));
  }
}
