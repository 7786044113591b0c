/**
 How the air-balloon problem ends: each thread reports to main when it is out of its loop,
 main waits for all of them and then destroys the locks. A thread still prints a last line
 after it has reported.
 */
module BalloonEnd {
  import opened Basics
  import opened Balloon

  /**
   Where a thread is around its loop: printing that it starts, in the loop, (the balloon) printing
   that the prince escapes, in thread_exit_notify with threads_lock, between that and its last
   line, printing that line, and gone.
   */
  datatype Tail = Born | Announcing | InLoop | Telling | Told | Notifying | Notified | Printing | Done

  // main: about to take threads_lock, looking at the count with it, in cv_wait, past the wait.
  datatype MainPc = Wanting | Looking | Asleep | Woken | Past | Saying | Cleaning | Cleaned

  datatype Who = Worker(t: Thread) | Main

  // b is the loops and what they share; the print lock is held in b.holder or by speaker.
  datatype End = End(
    b: Sys,
    tail: map<Thread, Tail>,
    main: MainPc,
    remaining: int,
    threads: Option<Who>,
    speaker: Option<Who>)

  datatype Act =
    | Loop(a: Action)
    | Announce | Announced
    | Tell | EndTell
    | Leave | Notify
    | LastLine | EndLine
    | MainAcquire | MainLook | MainSay | MainSaid | Destroy

  predicate PrintFree(e: End) {
    e.speaker.None? && PrintLock !in e.b.holder
  }

  ghost predicate LoopStep(e: End, e': End, t: Thread, a: Action)
    requires t in e.tail && t in e.b.pc
  {
    && e.tail[t].InLoop? && Step(e.b, e'.b, t, a)
    && (a.Acquire? && Wants(e.b.pc[t]) == Some(PrintLock) ==> e.speaker.None?)
    && e' == e.(b := e'.b)
  }

  ghost predicate WorkerStep(e: End, e': End, t: Thread, a: Act) {
    && t in e.tail && t in e.b.pc
    && match a
       case Loop(act) => LoopStep(e, e', t, act)
       case Announce =>
         e.tail[t].Born? && PrintFree(e) && e' == e.(speaker := Some(Worker(t)), tail := e.tail[t := Announcing])
       case Announced =>
         e.tail[t].Announcing? && e' == e.(speaker := None, tail := e.tail[t := InLoop])
       case Tell =>
         && e.tail[t].InLoop? && e.b.pc[t].BEscaped? && PrintFree(e)
         && e' == e.(speaker := Some(Worker(t)), tail := e.tail[t := Telling])
       case EndTell =>
         e.tail[t].Telling? && e' == e.(speaker := None, tail := e.tail[t := Told])
       case Leave =>
         && (e.tail[t].Told? || (e.tail[t].InLoop? && (e.b.pc[t].CFinished? || e.b.pc[t].FFinished?)))
           && e.threads.None?
         && e' == e.(threads := Some(Worker(t)), tail := e.tail[t := Notifying])
       case Notify =>
         && e.tail[t].Notifying?
         && e' == e.(remaining := e.remaining - 1, threads := None, tail := e.tail[t := Notified],
                     main := if e.remaining == 1 && e.main.Asleep? then Woken else e.main)
       case LastLine =>
         e.tail[t].Notified? && PrintFree(e) && e' == e.(speaker := Some(Worker(t)), tail := e.tail[t := Printing])
       case EndLine =>
         e.tail[t].Printing? && e' == e.(speaker := None, tail := e.tail[t := Done])
       case _ => false
  }

  ghost predicate MainStep(e: End, e': End, a: Act) {
    match a
    case MainAcquire =>
      (e.main.Wanting? || e.main.Woken?) && e.threads.None? && e' == e.(threads := Some(Main), main := Looking)
    case MainLook =>
      e.main.Looking? && e' == e.(threads := None, main := if e.remaining > 0 then Asleep else Past)
    case MainSay => e.main.Past? && PrintFree(e) && e' == e.(speaker := Some(Main), main := Saying)
    case MainSaid => e.main.Saying? && e' == e.(speaker := None, main := Cleaning)
    case Destroy => e.main.Cleaning? && e' == e.(main := Cleaned)
    case _ => false
  }

  ghost predicate EndStep(e: End, e': End, who: Who, a: Act) {
    match who
    case Worker(t) => WorkerStep(e, e', t, a)
    case Main => MainStep(e, e', a)
  }

  // ---------------------------------------------------------------- the invariant

  predicate Reported(t: Tail) {
    t.Notified? || t.Printing? || t.Done?
  }

  function Unreported(tail: map<Thread, Tail>): set<Thread> {
    set t | t in tail && !Reported(tail[t])
  }

  predicate Speaking(t: Tail) {
    t.Announcing? || t.Telling? || t.Printing?
  }

  // Out of the loop.
  predicate Left(t: Tail) {
    t.Telling? || t.Told? || t.Notifying? || Reported(t)
  }

  predicate PastWait(m: MainPc) {
    m.Past? || m.Saying? || m.Cleaning? || m.Cleaned?
  }

  ghost predicate ThreadsLockOk(e: End) {
    && (forall t: Thread :: e.threads == Some(Worker(t)) <==> t in e.tail && e.tail[t].Notifying?)
    && (e.threads == Some(Main) <==> e.main.Looking?)
  }

  ghost predicate PrintLockOk(e: End) {
    && (forall t: Thread :: e.speaker == Some(Worker(t)) <==> t in e.tail && Speaking(e.tail[t]))
    && (e.speaker == Some(Main) <==> e.main.Saying?)
    && (e.speaker.Some? ==> PrintLock !in e.b.holder)
  }

  ghost predicate TailsOk(e: End) {
    e.tail.Keys == e.b.pc.Keys && forall t: Thread | t in e.tail && Left(e.tail[t]) :: Finished(e.b.pc[t])
  }

  ghost predicate CountsOk(e: End) {
    && e.remaining == |Unreported(e.tail)|
    && (e.main.Asleep? ==> e.remaining > 0) && (PastWait(e.main) ==> e.remaining == 0)
  }

  ghost predicate EndOk(e: End) {
    SysOk(e.b) && ThreadsLockOk(e) && PrintLockOk(e) && TailsOk(e) && CountsOk(e)
  }

  // What a step of some loop leaves alone.
  lemma LoopFrame(b: Sys, b': Sys, t: Thread, a: Action)
    requires Step(b, b', t, a)
    ensures b'.pc.Keys == b.pc.Keys
    ensures forall u: Thread | u != t && u in b.pc && Finished(b.pc[u]) :: b'.pc[u] == b.pc[u]
    ensures PrintLock in b'.holder ==> PrintLock in b.holder || (a.Acquire? && Wants(b.pc[t]) == Some(PrintLock))
  {
    hide Held, Granted;
  }

  lemma LoopKeeps(e: End, e': End, t: Thread, a: Action)
    requires EndOk(e) && t in e.tail && t in e.b.pc && LoopStep(e, e', t, a)
    ensures EndOk(e')
  {
    hide SysOk, Step;
    StepKeeps(e.b, e'.b, t, a);
    LoopFrame(e.b, e'.b, t, a);
    hide Wants;
  }

  lemma SameCount(tail: map<Thread, Tail>, t: Thread, x: Tail)
    requires t in tail && (Reported(x) <==> Reported(tail[t]))
    ensures Unreported(tail[t := x]) == Unreported(tail)
  {}

  lemma OneLess(tail: map<Thread, Tail>, t: Thread)
    requires t in tail && !Reported(tail[t])
    ensures |Unreported(tail[t := Notified])| == |Unreported(tail)| - 1
  {
    assert Unreported(tail[t := Notified]) == Unreported(tail) - {t};
    assert t in Unreported(tail);
  }

  lemma WorkerKeeps(e: End, e': End, t: Thread, a: Act)
    requires EndOk(e) && WorkerStep(e, e', t, a)
    ensures EndOk(e')
  {
    hide SysOk;
    if a.Loop? {
      LoopKeeps(e, e', t, a.a);
    } else if a.Notify? {
      OneLess(e.tail, t);
      NotifyKeeps(e, e', t);
    } else if a.Leave? {
      hide LoopStep, Unreported;
      SameCount(e.tail, t, Notifying);
    } else {
      hide EndOk;
      SpeakKeeps(e, e', t, a);
    }
  }

  // The steps that take or give up the print lock outside the loop.
  lemma SpeakKeeps(e: End, e': End, t: Thread, a: Act)
    requires EndOk(e) && WorkerStep(e, e', t, a) && !a.Loop? && !a.Notify? && !a.Leave?
    ensures EndOk(e')
  {
    hide SysOk, LoopStep, Unreported;
    SameCount(e.tail, t, e'.tail[t]);
  }

  lemma NotifyKeeps(e: End, e': End, t: Thread)
    requires EndOk(e) && WorkerStep(e, e', t, Notify) && |Unreported(e'.tail)| == |Unreported(e.tail)| - 1
    ensures EndOk(e')
  {
    hide SysOk, Unreported;
  }

  lemma MainKeeps(e: End, e': End, a: Act)
    requires EndOk(e) && MainStep(e, e', a)
    ensures EndOk(e')
  {
    hide SysOk, Unreported;
  }

  // Every step of any thread and of main keeps the invariant.
  lemma EndKeeps(e: End, e': End, who: Who, a: Act)
    requires EndOk(e) && EndStep(e, e', who, a)
    ensures EndOk(e')
  {
    hide EndOk, WorkerStep, MainStep;
    match who
    case Worker(t) => WorkerKeeps(e, e', t, a);
    case Main => MainKeeps(e, e', a);
  }

  // ---------------------------------------------------------------- runs

  // airballoon after airballoon_init: every thread is counted and about to start.
  ghost predicate EndInit(e: End) {
    && Init(e.b) && e.tail.Keys == e.b.pc.Keys && (forall t: Thread | t in e.tail :: e.tail[t].Born?)
    && e.remaining == |e.tail.Keys| && e.main.Wanting? && e.threads.None? && e.speaker.None?
  }

  ghost predicate EndRun(states: seq<End>, acts: seq<(Who, Act)>) {
    && |states| == |acts| + 1 && EndInit(states[0])
    && forall i | 0 <= i < |acts| :: EndStep(states[i], states[i + 1], acts[i].0, acts[i].1)
  }

  lemma EndInitOk(e: End)
    requires EndInit(e)
    ensures EndOk(e)
  {
    InitOk(e.b);
    assert PrintLock !in e.b.holder;
    hide SysOk, Init, ThreadsLockOk, PrintLockOk, TailsOk, CountsOk;
    BornOk(e);
  }

  lemma BornOk(e: End)
    requires e.tail.Keys == e.b.pc.Keys && (forall t: Thread | t in e.tail :: e.tail[t].Born?)
    requires e.remaining == |e.tail.Keys| && e.main.Wanting? && e.threads.None? && PrintFree(e)
    ensures ThreadsLockOk(e) && PrintLockOk(e) && TailsOk(e) && CountsOk(e)
  {
    assert Unreported(e.tail) == e.tail.Keys;
  }

  lemma {:induction false} EndRunOk(states: seq<End>, acts: seq<(Who, Act)>, n: nat)
    requires EndRun(states, acts) && n <= |acts|
    ensures EndOk(states[n])
  {
    hide EndOk, EndStep, EndInit;
    if n == 0 {
      EndInitOk(states[0]);
    } else {
      EndRunOk(states, acts, n - 1);
      EndKeeps(states[n - 1], states[n], acts[n - 1].0, acts[n - 1].1);
    }
  }

  /**
   At every point of every run, once main is past its wait every thread is out of its loop, every
   rope is cut, no rope lock, count_lock or threads_lock is held, and no thread has a step left that
   would take one: destroying them is safe. And main does not sleep through the last report.
   */
  lemma CleanupWaits(states: seq<End>, acts: seq<(Who, Act)>, n: nat)
    requires EndRun(states, acts) && n <= |acts|
    ensures var e := states[n];
            && (e.main.Asleep? ==> exists t: Thread :: t in e.tail && !Reported(e.tail[t]))
            && (PastWait(e.main) ==>
                  && (forall t: Thread | t in e.tail :: Reported(e.tail[t]) && t in e.b.pc && Finished(e.b.pc[t]))
                  && e.b.holder == map[] && e.threads.None?
                  && (forall e': End, who: Who, a: Act | EndStep(e, e', who, a) ::
                        !a.Loop? && !a.Leave? && !a.Notify? && !a.MainAcquire?))
  {
    hide EndStep, EndInit;
    EndRunOk(states, acts, n);
    var e := states[n];
    if e.main.Asleep? {
      assert Unreported(e.tail) != {};
      var t :| t in Unreported(e.tail);
    }
    if PastWait(e.main) {
      assert Unreported(e.tail) == {};
      forall t: Thread | t in e.tail
        ensures Reported(e.tail[t])
      {
        assert t !in Unreported(e.tail);
      }
      NothingHeld(e.b);
      WhoHolds(e.threads);
      forall e': End, who: Who, a: Act | EndStep(e, e', who, a)
        ensures !a.Loop? && !a.Leave? && !a.Notify? && !a.MainAcquire?
      {
        OnlyLastLines(e, e', who, a);
      }
    }
  }

  lemma WhoHolds(h: Option<Who>)
    ensures h.None? || h == Some(Main) || exists t: Thread :: h == Some(Worker(t))
  {
    if h.Some? && h.value.Worker? {
      assert h == Some(Worker(h.value.t));
    }
  }

  lemma NothingHeld(b: Sys)
    requires SysOk(b) && forall t: Thread | t in b.pc :: Finished(b.pc[t])
    ensures b.holder == map[]
  {
    hide CountOk, BalloonOk, PcOk;
    forall l: Lock
      ensures l !in b.holder
    {
      assert l in b.holder ==> l in Held(b.pc[b.holder[l]]);
    }
  }

  lemma OnlyLastLines(e: End, e': End, who: Who, a: Act)
    requires PastWait(e.main) && (forall t: Thread | t in e.tail :: Reported(e.tail[t])) && EndStep(e, e', who, a)
    ensures a.LastLine? || a.EndLine? || a.MainSay? || a.MainSaid? || a.Destroy?
  {
    hide Step;
  }

  // The run states', acts' starts with the run states, acts.
  ghost predicate Continues(states: seq<End>, acts: seq<(Who, Act)>, states': seq<End>, acts': seq<(Who, Act)>) {
    EndRun(states', acts') && states <= states' && acts <= acts'
  }

  // Every thread has printed its last line.
  ghost predicate AllDone(e: End) {
    forall t: Thread | t in e.tail :: e.tail[t].Done?
  }

  // The steps outside the loops that take or release print_lock once the loops are over.
  predicate UsesPrint(a: Act) {
    a.LastLine? || a.EndLine? || a.MainSay? || a.MainSaid?
  }

  // From step n on nobody takes or releases print_lock.
  predicate Silent(acts: seq<(Who, Act)>, n: nat) {
    forall i | n <= i < |acts| :: !UsesPrint(acts[i].1)
  }

  /**
   print_lock is another matter: main does not wait for the last lines. After a run that ends with
   main destroying the locks, print_lock is never used again, however the run goes on, if and only
   if every thread had finished its last line by then.
   */
  lemma PrintLockSafeIff(states: seq<End>, acts: seq<(Who, Act)>)
    requires EndRun(states, acts) && |acts| > 0 && acts[|acts| - 1] == (Main, Destroy)
    ensures (forall states': seq<End>, acts': seq<(Who, Act)> | Continues(states, acts, states', acts') ::
               Silent(acts', |acts|))
            <==> AllDone(states[|acts| - 1])
  {
    hide EndStep, EndInit;
    var n := |acts|;
    var e := states[n];
    DestroyOnly(states[n - 1], e, acts[n - 1].0);
    EndRunOk(states, acts, n);
    CleanupWaits(states, acts, n);
    if t: Thread :| t in e.tail && !e.tail[t].Done? {
      var e', u, a := NextLine(e, t);
      var states', acts' := states + [e'], acts + [(Worker(u), a)];
      assert Continues(states, acts, states', acts');
      assert acts'[n] == (Worker(u), a);
    } else {
      forall states': seq<End>, acts': seq<(Who, Act)> | Continues(states, acts, states', acts')
        ensures Silent(acts', n)
      {
        if n < |acts'| {
          assert EndStep(states'[n], states'[n + 1], acts'[n].0, acts'[n].1);
          StillTalking(e, states'[n + 1], acts'[n].0, acts'[n].1);
          assert false;
        }
      }
    }
  }

  lemma DestroyOnly(e: End, e': End, who: Who)
    requires EndStep(e, e', who, Destroy)
    ensures e'.main.Cleaned? && e'.tail == e.tail
  {}

  lemma StillTalking(e: End, e': End, who: Who, a: Act)
    requires e.main.Cleaned? && (forall t: Thread | t in e.tail :: Reported(e.tail[t])) && EndStep(e, e', who, a)
    ensures (a.LastLine? || a.EndLine?) && who.Worker? && who.t in e.tail && !e.tail[who.t].Done?
  {
    hide Step;
  }

  // Either the thread can take the print lock, or whoever has it can release it.
  lemma NextLine(e: End, t: Thread) returns (e': End, u: Thread, a: Act)
    requires EndOk(e) && e.main.Cleaned? && (forall u: Thread | u in e.tail :: Reported(e.tail[u]))
             && e.b.holder == map[]
    requires t in e.tail && !e.tail[t].Done?
    ensures EndStep(e, e', Worker(u), a) && (a.LastLine? || a.EndLine?)
  {
    hide SysOk, CountsOk;
    if e.speaker.Some? && e.speaker.value.Worker? {
      u, a := e.speaker.value.t, EndLine;
      e' := e.(speaker := None, tail := e.tail[u := Done]);
    } else {
      assert e.speaker.None?;
      u, a := t, LastLine;
      e' := e.(speaker := Some(Worker(t)), tail := e.tail[t := Printing]);
    }
  }

  // ---------------------------------------------------------------- a run that ends too soon

  lemma Extend(states: seq<End>, acts: seq<(Who, Act)>, e: End, e': End, who: Who, a: Act)
      returns (states': seq<End>, acts': seq<(Who, Act)>)
    requires EndRun(states, acts) && states[|acts|] == e && EndStep(e, e', who, a)
    ensures EndRun(states', acts') && states'[0] == states[0] && states'[|acts'|] == e'
  {
    hide EndStep, EndInit;
    states', acts' := states + [e'], acts + [(who, a)];
  }

  // Thread t is in its loop and nobody outside a loop is printing.
  predicate Ready(e: End, t: Thread) {
    t in e.tail && e.tail[t].InLoop? && e.speaker.None?
  }

  // A step of its loop.
  lemma Extends(states: seq<End>, acts: seq<(Who, Act)>, e: End, t: Thread, b: Sys, a: Action)
      returns (states': seq<End>, acts': seq<(Who, Act)>)
    requires EndRun(states, acts) && states[|acts|] == e && Ready(e, t) && Step(e.b, b, t, a)
    ensures EndRun(states', acts') && states'[0] == states[0] && states'[|acts'|] == e.(b := b)
  {
    hide EndRun, Step;
    ActsHere(e.b, b, t, a);
    states', acts' := Extend(states, acts, e, e.(b := b), Worker(t), Loop(a));
  }

  function CutBelow(k: nat): (cut: seq<bool>)
    ensures |cut| == NROPES && forall r: Rope :: cut[r] == (r < k)
  {
    seq(NROPES, i => i < k)
  }

  // Thread c at pc and the others as in pcs, with left ropes to count off and the first k cut.
  function Cutter(pcs: map<Thread, Pc>, c: Thread, left: int, k: nat, pc: Pc, holder: map<Lock, Thread>): Sys {
    var id: seq<Rope> := seq(NROPES, i requires 0 <= i < NROPES => i);
    Sys(left, CutBelow(k), id, id, holder, pcs[c := pc])
  }

  // From the top of its loop to holding the lock of rope k.
  lemma Reaches(states: seq<End>, acts: seq<(Who, Act)>, e: End, pcs: map<Thread, Pc>, c: Thread, left: int, k: Rope)
      returns (states': seq<End>, acts': seq<(Who, Act)>)
    requires EndRun(states, acts) && states[|acts|] == e && Ready(e, c) && left != 0
    requires e.b == Cutter(pcs, c, left, k, CTop, map[])
    ensures EndRun(states', acts') && states'[0] == states[0]
    ensures states'[|acts'|] == e.(b := Cutter(pcs, c, left, k, CHas(k, None), map[RopeLock(k) := c]))
  {
    hide EndRun, CutBelow;
    var b1 := Cutter(pcs, c, left, k, CCheck, map[CountLock := c]);
    states', acts' := Extends(states, acts, e, c, b1, Acquire);
    var b2 := Cutter(pcs, c, left, k, CChoose, map[]);
    assert b1.holder - {CountLock} == map[];
    states', acts' := Extends(states', acts', e.(b := b1), c, b2, Check);
    var b3 := Cutter(pcs, c, left, k, CWant(k, None), map[]);
    states', acts' := Extends(states', acts', e.(b := b2), c, b3, ChooseHook(k));
    var b4 := Cutter(pcs, c, left, k, CHas(k, None), map[RopeLock(k) := c]);
    states', acts' := Extends(states', acts', e.(b := b3), c, b4, Acquire);
  }

  // It cuts the rope and prints so.
  lemma Cuts(states: seq<End>, acts: seq<(Who, Act)>, e: End, pcs: map<Thread, Pc>, c: Thread, left: int, k: Rope)
      returns (states': seq<End>, acts': seq<(Who, Act)>)
    requires EndRun(states, acts) && states[|acts|] == e && Ready(e, c)
    requires e.b == Cutter(pcs, c, left, k, CHas(k, None), map[RopeLock(k) := c])
    ensures EndRun(states', acts') && states'[0] == states[0]
    ensures states'[|acts'|] == e.(b := Cutter(pcs, c, left, k + 1, CReleasing(k), map[RopeLock(k) := c]))
  {
    hide EndRun, CutBelow;
    var one := map[RopeLock(k) := c];
    var b1 := Cutter(pcs, c, left, k + 1, CWantPrint(k), one);
    assert CutBelow(k)[k := true] == CutBelow(k + 1);
    states', acts' := Extends(states, acts, e, c, b1, Cut);
    var b2 := Cutter(pcs, c, left, k + 1, CPrinting(k), one[PrintLock := c]);
    states', acts' := Extends(states', acts', e.(b := b1), c, b2, Acquire);
    assert b2.holder - {PrintLock} == one;
    var b3 := Cutter(pcs, c, left, k + 1, CReleasing(k), one);
    states', acts' := Extends(states', acts', e.(b := b2), c, b3, EndPrint);
  }

  // And counts it off.
  lemma Counts(states: seq<End>, acts: seq<(Who, Act)>, e: End, pcs: map<Thread, Pc>, c: Thread, left: int, k: Rope)
      returns (states': seq<End>, acts': seq<(Who, Act)>)
    requires EndRun(states, acts) && states[|acts|] == e && Ready(e, c)
    requires e.b == Cutter(pcs, c, left, k + 1, CReleasing(k), map[RopeLock(k) := c])
    ensures EndRun(states', acts') && states'[0] == states[0]
    ensures states'[|acts'|] == e.(b := Cutter(pcs, c, left - 1, k + 1, CTop, map[]))
  {
    hide EndRun, CutBelow;
    var b1 := Cutter(pcs, c, left, k + 1, CWantCount, map[]);
    assert e.b.holder - {RopeLock(k)} == map[];
    states', acts' := Extends(states, acts, e, c, b1, Release);
    var b2 := Cutter(pcs, c, left, k + 1, CCounting, map[CountLock := c]);
    states', acts' := Extends(states', acts', e.(b := b1), c, b2, Acquire);
    assert b2.holder - {CountLock} == map[];
    states', acts' := Extends(states', acts', e.(b := b2), c, Cutter(pcs, c, left - 1, k + 1, CTop, map[]), Count);
  }

  // Everybody about to start but c, which is at the top of its loop with the first k ropes cut.
  function OneIn(pcs: map<Thread, Pc>, c: Thread, k: nat): End
    requires c in pcs
  {
    End(Cutter(pcs, c, NROPES - k, k, CTop, map[]), Born(pcs)[c := InLoop], Wanting, |pcs|, None, None)
  }

  function Born(pcs: map<Thread, Pc>): map<Thread, Tail> {
    map t | t in pcs :: Tail.Born
  }

  // One cutter can cut the ropes one after the other while the others have yet to start.
  lemma {:induction false} CutsAll(pcs: map<Thread, Pc>, c: Thread, k: nat)
      returns (states: seq<End>, acts: seq<(Who, Act)>)
    requires AtTop(pcs) && c in pcs && pcs[c].CTop? && k <= NROPES
    ensures EndRun(states, acts) && states[0].b.pc == pcs && states[|acts|] == OneIn(pcs, c, k)
  {
    hide EndStep, EndInit, Cutter, Born;
    if k == 0 {
      states, acts := Starts(pcs, c);
    } else {
      states, acts := CutsAll(pcs, c, k - 1);
      states, acts := Reaches(states, acts, states[|acts|], pcs, c, NROPES - k + 1, k - 1);
      states, acts := Cuts(states, acts, states[|acts|], pcs, c, NROPES - k + 1, k - 1);
      states, acts := Counts(states, acts, states[|acts|], pcs, c, NROPES - k + 1, k - 1);
    }
  }

  lemma Starts(pcs: map<Thread, Pc>, c: Thread) returns (states: seq<End>, acts: seq<(Who, Act)>)
    requires AtTop(pcs) && c in pcs && pcs[c].CTop?
    ensures EndRun(states, acts) && states[0].b.pc == pcs && states[|acts|] == OneIn(pcs, c, 0)
  {
    var b := Cutter(pcs, c, NROPES, 0, CTop, map[]);
    assert pcs[c := CTop] == pcs;
    var e := End(b, Born(pcs), Wanting, |pcs|, None, None);
    states, acts := [e], [];
    assert e.tail.Keys == pcs.Keys && |pcs| == |pcs.Keys|;
    assert EndRun(states, acts);
    hide Cutter, EndStep, EndInit;
    states, acts := Announces(states, acts, e, c);
  }

  // A thread prints that it starts and enters its loop.
  lemma Announces(states: seq<End>, acts: seq<(Who, Act)>, e: End, t: Thread)
      returns (states': seq<End>, acts': seq<(Who, Act)>)
    requires EndRun(states, acts) && states[|acts|] == e && PrintFree(e)
    requires t in e.tail && t in e.b.pc && e.tail[t].Born?
    ensures EndRun(states', acts') && states'[0] == states[0]
    ensures states'[|acts'|] == e.(tail := e.tail[t := InLoop])
  {
    hide EndRun;
    var e1 := e.(tail := e.tail[t := Announcing], speaker := Some(Worker(t)));
    states', acts' := Extend(states, acts, e, e1, Worker(t), Announce);
    states', acts' := Extend(states', acts', e1, e.(tail := e.tail[t := InLoop]), Worker(t), Announced);
  }

  // Where a thread that finds no rope left gets to.
  function Out(pc: Pc): Pc {
    if pc.CTop? then CFinished else if pc.FTop? then FFinished else BEscaped
  }

  // Nothing is left, nobody holds anything, nobody sleeps, and main has not begun to wait.
  ghost predicate Over(e: End) {
    && Shape(e.b) && e.b.left == 0 && e.b.holder == map[] && e.threads.None? && e.speaker.None? && e.main.Wanting?
    && forall t: Thread | t in e.b.pc :: !e.b.pc[t].BAsleep?
  }

  // A thread at the top of its loop leaves it.
  lemma Quits(states: seq<End>, acts: seq<(Who, Act)>, e: End, t: Thread)
      returns (states': seq<End>, acts': seq<(Who, Act)>)
    requires EndRun(states, acts) && states[|acts|] == e && Over(e) && Ready(e, t)
    requires t in e.b.pc && (e.b.pc[t].CTop? || e.b.pc[t].FTop? || e.b.pc[t].BTop?)
    ensures EndRun(states', acts') && states'[0] == states[0]
    ensures states'[|acts'|] == e.(b := e.b.(pc := e.b.pc[t := Out(e.b.pc[t])]))
  {
    hide EndRun;
    var pc := e.b.pc[t];
    var b1 := e.b.(pc := e.b.pc[t := Granted(pc)], holder := map[CountLock := t]);
    states', acts' := Extends(states, acts, e, t, b1, Acquire);
    var b2 := e.b.(pc := e.b.pc[t := Out(pc)]);
    assert b1.holder - {CountLock} == map[];
    assert Broadcast(b1) == b1.pc;
    assert b1.pc[t := Out(pc)] == b2.pc;
    states', acts' := Extends(states', acts', e.(b := b1), t, b2, Check);
  }

  // A thread out of its loop reports; the balloon first prints that the prince escapes.
  lemma Reports(states: seq<End>, acts: seq<(Who, Act)>, e: End, t: Thread)
      returns (states': seq<End>, acts': seq<(Who, Act)>)
    requires EndRun(states, acts) && states[|acts|] == e && Over(e) && Ready(e, t)
    requires t in e.b.pc && Finished(e.b.pc[t])
    ensures EndRun(states', acts') && states'[0] == states[0]
    ensures states'[|acts'|] == e.(tail := e.tail[t := Notified], remaining := e.remaining - 1)
  {
    hide EndRun;
    states', acts' := states, acts;
    var e2 := e;
    if e.b.pc[t].BEscaped? {
      var e1 := e.(tail := e.tail[t := Telling], speaker := Some(Worker(t)));
      e2 := e.(tail := e.tail[t := Told]);
      states', acts' := Extend(states', acts', e, e1, Worker(t), Tell);
      states', acts' := Extend(states', acts', e1, e2, Worker(t), EndTell);
    }
    var e3 := e.(tail := e.tail[t := Notifying], threads := Some(Worker(t)));
    states', acts' := Extend(states', acts', e2, e3, Worker(t), Leave);
    var e4 := e.(tail := e.tail[t := Notified], remaining := e.remaining - 1);
    states', acts' := Extend(states', acts', e3, e4, Worker(t), Notify);
  }

  // Everyone in todo has yet to start; all the others have reported.
  ghost predicate Rest(e: End, pcs: map<Thread, Pc>, todo: set<Thread>) {
    && Over(e) && todo <= pcs.Keys && e.tail.Keys == pcs.Keys == e.b.pc.Keys
    && (forall t: Thread | t in todo :: e.tail[t].Born? && e.b.pc[t] == pcs[t])
    && (forall t: Thread | t in pcs && t !in todo :: e.tail[t].Notified?)
  }

  // With no rope left, the threads come and go one after the other.
  lemma {:induction false} AllReport(states: seq<End>, acts: seq<(Who, Act)>, pcs: map<Thread, Pc>, todo: set<Thread>)
      returns (states': seq<End>, acts': seq<(Who, Act)>)
    requires EndRun(states, acts) && AtTop(pcs) && Rest(states[|acts|], pcs, todo)
    ensures EndRun(states', acts') && states'[0] == states[0] && Rest(states'[|acts'|], pcs, {})
    decreases todo
  {
    hide EndStep, EndInit;
    states', acts' := states, acts;
    if todo != {} {
      var t: Thread :| t in todo;
      states', acts' := Announces(states', acts', states'[|acts'|], t);
      states', acts' := Quits(states', acts', states'[|acts'|], t);
      states', acts' := Reports(states', acts', states'[|acts'|], t);
      states', acts' := AllReport(states', acts', pcs, todo - {t});
    } else {
      assert todo == {};
    }
  }

  /**
   Whatever threads there are, if one of them is a cutter there is a run in which main destroys the
   locks while every thread has reported and is about to take print_lock for its last line.
   */
  lemma DestroyedTooSoon(pcs: map<Thread, Pc>, c: Thread) returns (states: seq<End>, acts: seq<(Who, Act)>)
    requires AtTop(pcs) && c in pcs && pcs[c].CTop?
    ensures EndRun(states, acts) && states[0].b.pc == pcs
    ensures var e := states[|acts|];
            e.main.Cleaned? && e.tail.Keys == pcs.Keys && forall t: Thread | t in pcs :: e.tail[t].Notified?
  {
    states, acts := CutsAll(pcs, c, NROPES);
    assert Over(states[|acts|]);
    hide EndStep, EndInit, Cutter, CutBelow;
    states, acts := Quits(states, acts, states[|acts|], c);
    states, acts := Reports(states, acts, states[|acts|], c);
    states, acts := AllReport(states, acts, pcs, pcs.Keys - {c});
    EndRunOk(states, acts, |acts|);
    assert Unreported(states[|acts|].tail) == {};
    states, acts := MainEnds(states, acts, states[|acts|]);
  }

  // In particular with the threads airballoon forks.
  lemma DestroyedWhenForked() returns (states: seq<End>, acts: seq<(Who, Act)>)
    ensures EndRun(states, acts) && states[0].b.pc == Forked()
    ensures var e := states[|acts|];
            e.main.Cleaned? && e.tail.Keys == Forked().Keys && forall t: Thread | t in e.tail :: e.tail[t].Notified?
  {
    hide EndRun;
    states, acts := DestroyedTooSoon(Forked(), 0);
  }

  lemma MainEnds(states: seq<End>, acts: seq<(Who, Act)>, e: End)
      returns (states': seq<End>, acts': seq<(Who, Act)>)
    requires EndRun(states, acts) && states[|acts|] == e && e.main.Wanting? && e.remaining == 0 && e.threads.None?
             && PrintFree(e)
    ensures EndRun(states', acts') && states'[0] == states[0] && states'[|acts'|] == e.(main := Cleaned)
  {
    hide EndRun;
    var e1 := e.(main := Looking, threads := Some(Main));
    states', acts' := Extend(states, acts, e, e1, Main, MainAcquire);
    states', acts' := Extend(states', acts', e1, e.(main := Past), Main, MainLook);
    var e3 := e.(main := Saying, speaker := Some(Main));
    states', acts' := Extend(states', acts', e.(main := Past), e3, Main, MainSay);
    states', acts' := Extend(states', acts', e3, e.(main := Cleaning), Main, MainSaid);
    states', acts' := Extend(states', acts', e.(main := Cleaning), e.(main := Cleaned), Main, Destroy);
  }
}
