/**
 A sleep lock and the condition variables used with it, for any number of
 threads. A step is one stretch of code under a spinlock; cv_wait holds the
 condition variable's spinlock across its release of the lock.
 */
module LockCv {
  import opened Basics

  type Thread = nat
  type Cv = nat

  /**
   Where a thread is. incv tells that its lock_acquire is the one that ends cv_wait.
   Entering: in cv_wait with the channel's spinlock, still holding the lock; Released: the lock
   is given up, the spinlock is not; CvAsleep: on the channel; CvWoken: taken off it.
   */
  datatype Phase =
    | Outside
    | Wants(incv: bool)
    | LockAsleep(incv: bool)
    | LockWoken(incv: bool)
    | Holding
    | Entering(c: Cv)
    | Released(c: Cv)
    | CvAsleep(c: Cv)
    | CvWoken(c: Cv)

  // The lock's holder and channel; each condition variable's spinlock and channel.
  datatype Sys = Sys(
    holder: Option<Thread>,
    lockq: seq<Thread>,
    spin: map<Cv, Option<Thread>>,
    cvq: map<Cv, seq<Thread>>,
    phase: map<Thread, Phase>)

  datatype Action =
    | Ask
    | Attempt
    | Release
    | WaitStart(c: Cv)
    | WaitRelease
    | WaitSleep
    | WaitBack
    | Signal(c: Cv)
    | Broadcast(c: Cv)

  // lock_release: no holder, and one sleeper is woken.
  function Unlocked(s: Sys): Sys
    requires |s.lockq| > 0 ==> s.lockq[0] in s.phase && s.phase[s.lockq[0]].LockAsleep?
  {
    if |s.lockq| == 0 then s.(holder := None)
    else s.(holder := None, lockq := s.lockq[1..], phase := s.phase[s.lockq[0] := LockWoken(s.phase[s.lockq[0]].incv)])
  }

  // wchan_wakeone on a condition variable's channel.
  function WokenOne(s: Sys, c: Cv): Sys
    requires c in s.cvq
  {
    var q := s.cvq[c];
    if |q| == 0 then s else s.(cvq := s.cvq[c := q[1..]], phase := s.phase[q[0] := CvWoken(c)])
  }

  // wchan_wakeall: every thread of the channel in turn.
  function WokenAll(s: Sys, c: Cv): Sys
    requires c in s.cvq
    decreases |s.cvq[c]|
  {
    if |s.cvq[c]| == 0 then s else WokenAll(WokenOne(s, c), c)
  }

  // The spinlock of c is free, so a thread that takes it can run its short section.
  predicate SpinFree(s: Sys, c: Cv) {
    c in s.spin && c in s.cvq && s.spin[c].None?
  }

  ghost predicate Step(s: Sys, s': Sys, t: Thread, a: Action) {
    && t in s.phase && (|s.lockq| > 0 ==> s.lockq[0] in s.phase && s.phase[s.lockq[0]].LockAsleep?)
    && var ph := s.phase[t];
       match a
       case Ask =>
         ph.Outside? && s' == s.(phase := s.phase[t := Wants(false)])
       case Attempt =>
         && (ph.Wants? || ph.LockWoken?)
         && s' == if s.holder.None? then s.(holder := Some(t), phase := s.phase[t := Holding])
                  else s.(lockq := s.lockq + [t], phase := s.phase[t := LockAsleep(ph.incv)])
       case Release =>
         ph.Holding? && s.holder == Some(t) && s' == Unlocked(s).(phase := Unlocked(s).phase[t := Outside])
       case WaitStart(c) =>
         && ph.Holding? && SpinFree(s, c)
         && s' == s.(spin := s.spin[c := Some(t)], phase := s.phase[t := Entering(c)])
       case WaitRelease =>
         ph.Entering? && s.holder == Some(t) && s' == Unlocked(s).(phase := Unlocked(s).phase[t := Released(ph.c)])
       case WaitSleep =>
         && ph.Released? && ph.c in s.spin && ph.c in s.cvq
         && s' == s.(spin := s.spin[ph.c := None], cvq := s.cvq[ph.c := s.cvq[ph.c] + [t]],
           phase := s.phase[t := CvAsleep(ph.c)])
       case WaitBack =>
         ph.CvWoken? && SpinFree(s, ph.c) && s' == s.(phase := s.phase[t := Wants(true)])
       case Signal(c) =>
         (ph.Holding? || ph.Outside?) && SpinFree(s, c) && s' == WokenOne(s, c)
       case Broadcast(c) =>
         (ph.Holding? || ph.Outside?) && SpinFree(s, c) && s' == WokenAll(s, c)
  }

  // ---------------------------------------------------------------- the invariant

  // A thread that is between getting the lock and giving it up.
  predicate Owns(ph: Phase) {
    ph.Holding? || ph.Entering?
  }

  ghost predicate LockOk(s: Sys) {
    && (forall t: Thread :: s.holder == Some(t) <==> t in s.phase && Owns(s.phase[t]))
    && Distinct(s.lockq)
    && (forall t: Thread :: t in s.lockq <==> t in s.phase && s.phase[t].LockAsleep?)
    && (s.holder.None? && |s.lockq| > 0 ==> exists t: Thread :: t in s.phase && s.phase[t].LockWoken?)
  }

  predicate InSpin(ph: Phase, c: Cv) {
    (ph.Entering? || ph.Released?) && ph.c == c
  }

  ghost predicate CvOk(s: Sys) {
    && s.spin.Keys == s.cvq.Keys
    && (forall c: Cv, t: Thread | c in s.spin :: s.spin[c] == Some(t) <==> t in s.phase && InSpin(s.phase[t], c))
    && (forall t: Thread, c: Cv | t in s.phase && InSpin(s.phase[t], c) :: c in s.spin)
    && (forall c: Cv | c in s.cvq :: Distinct(s.cvq[c]))
    && (forall c: Cv, t: Thread | c in s.cvq :: t in s.cvq[c] <==> t in s.phase && s.phase[t] == CvAsleep(c))
  }

  ghost predicate SysOk(s: Sys) {
    LockOk(s) && CvOk(s)
  }

  // ---------------------------------------------------------------- each step keeps the invariant

  // A thread moves between phases that no list, holder or spinlock depends on.
  predicate Free(ph: Phase) {
    ph.Outside? || ph.Wants? || ph.CvWoken?
  }

  lemma MoveKeeps(s: Sys, s': Sys, t: Thread, ph: Phase)
    requires SysOk(s) && t in s.phase && Free(s.phase[t]) && Free(ph) && s' == s.(phase := s.phase[t := ph])
    ensures SysOk(s')
  {
    hide LockOk, CvOk;
    LockOnly(s, s');
    PhaseOnly(s, s');
  }

  ghost predicate Attempts(s: Sys, s': Sys, t: Thread) {
    && t in s.phase && (s.phase[t].Wants? || s.phase[t].LockWoken?)
    && s' == if s.holder.None? then s.(holder := Some(t), phase := s.phase[t := Holding])
             else s.(lockq := s.lockq + [t], phase := s.phase[t := LockAsleep(s.phase[t].incv)])
  }

  lemma AttemptKeeps(s: Sys, s': Sys, t: Thread)
    requires SysOk(s) && Attempts(s, s', t)
    ensures SysOk(s')
  {
    assert CvOk(s') by {
      hide LockOk, CvOk;
      PhaseOnly(s, s');
    }
    hide CvOk;
    assert t !in s.lockq;
  }

  // Giving up the lock: by t, which ends Outside, or Released inside cv_wait.
  ghost predicate GivesUp(s: Sys, s': Sys, t: Thread, ph: Phase) {
    && t in s.phase && s.holder == Some(t)
    && ((ph.Outside? && s.phase[t].Holding?) || (ph.Released? && s.phase[t] == Entering(ph.c)))
    && (|s.lockq| > 0 ==> s.lockq[0] in s.phase && s.phase[s.lockq[0]].LockAsleep?)
    && s' == Unlocked(s).(phase := Unlocked(s).phase[t := ph])
  }

  lemma UnlockLock(s: Sys, s': Sys, t: Thread, ph: Phase)
    requires LockOk(s) && GivesUp(s, s', t, ph)
    ensures LockOk(s')
  {
    assert t !in s.lockq;
    if |s.lockq| > 0 {
      var h := s.lockq[0];
      assert h in s.lockq && h != t;
      assert s.lockq == [h] + s.lockq[1..] && h !in s.lockq[1..];
      assert s'.phase == s.phase[h := LockWoken(s.phase[h].incv)][t := ph] && s'.lockq == s.lockq[1..];
      assert s'.phase[h].LockWoken?;
    } else {
      assert s'.phase == s.phase[t := ph] && s'.lockq == s.lockq;
    }
  }

  lemma UnlockCv(s: Sys, s': Sys, t: Thread, ph: Phase)
    requires CvOk(s) && GivesUp(s, s', t, ph)
    ensures CvOk(s')
  {
    hide Distinct;
    PhaseOnly(s, s');
  }

  // The condition variables see only these two things about a thread.
  lemma PhaseOnly(s: Sys, s': Sys)
    requires CvOk(s) && s'.spin == s.spin && s'.cvq == s.cvq && s'.phase.Keys == s.phase.Keys
    requires forall t: Thread, c: Cv | t in s.phase :: InSpin(s'.phase[t], c) <==> InSpin(s.phase[t], c)
    requires forall t: Thread, c: Cv | t in s.phase :: s'.phase[t] == CvAsleep(c) <==> s.phase[t] == CvAsleep(c)
    ensures CvOk(s')
  {
    hide Distinct, InSpin;
  }

  // The lock sees only these three.
  lemma LockOnly(s: Sys, s': Sys)
    requires LockOk(s) && s'.holder == s.holder && s'.lockq == s.lockq && s'.phase.Keys == s.phase.Keys
    requires forall t: Thread | t in s.phase :: Owns(s'.phase[t]) <==> Owns(s.phase[t])
    requires forall t: Thread | t in s.phase :: s'.phase[t].LockAsleep? <==> s.phase[t].LockAsleep?
    requires forall t: Thread | t in s.phase :: s'.phase[t].LockWoken? <==> s.phase[t].LockWoken?
    ensures LockOk(s')
  {
    hide Distinct, Owns;
    if t: Thread :| t in s.phase && s.phase[t].LockWoken? {
      assert t in s'.phase && s'.phase[t].LockWoken?;
    }
  }

  // cv_wait takes the channel's spinlock.
  lemma WaitStartKeeps(s: Sys, s': Sys, t: Thread, c: Cv)
    requires SysOk(s) && t in s.phase && s.phase[t].Holding? && SpinFree(s, c)
    requires s' == s.(spin := s.spin[c := Some(t)], phase := s.phase[t := Entering(c)])
    ensures SysOk(s')
  {
    assert LockOk(s') by {
      hide LockOk, CvOk;
      LockOnly(s, s');
    }
    hide LockOk, Distinct;
    forall d: Cv, u: Thread | d in s'.spin
      ensures s'.spin[d] == Some(u) <==> u in s'.phase && InSpin(s'.phase[u], d)
    {
      assert s.spin[d] == Some(u) <==> u in s.phase && InSpin(s.phase[u], d);
    }
  }

  // And gives it up once it is on the channel.
  lemma WaitSleepKeeps(s: Sys, s': Sys, t: Thread, c: Cv)
    requires SysOk(s) && t in s.phase && s.phase[t] == Released(c) && c in s.spin && c in s.cvq
    requires s' == s.(spin := s.spin[c := None], cvq := s.cvq[c := s.cvq[c] + [t]], phase := s.phase[t := CvAsleep(c)])
    ensures SysOk(s')
  {
    assert LockOk(s') by {
      hide LockOk, CvOk;
      LockOnly(s, s');
    }
    hide LockOk;
    assert InSpin(s.phase[t], c) && t !in s.cvq[c];
    forall d: Cv, u: Thread | d in s'.spin
      ensures s'.spin[d] == Some(u) <==> u in s'.phase && InSpin(s'.phase[u], d)
      ensures u in s'.cvq[d] <==> u in s'.phase && s'.phase[u] == CvAsleep(d)
    {
      assert s.spin[d] == Some(u) <==> u in s.phase && InSpin(s.phase[u], d);
      assert u in s.cvq[d] <==> u in s.phase && s.phase[u] == CvAsleep(d);
    }
  }

  lemma WakeKeeps(s: Sys, c: Cv)
    requires SysOk(s) && c in s.cvq
    ensures SysOk(WokenOne(s, c))
  {
    hide LockOk;
    if |s.cvq[c]| > 0 {
      var s', h := WokenOne(s, c), s.cvq[c][0];
      FirstAsleep(s, c);
      assert LockOk(s') by {
        hide CvOk;
        LockOnly(s, s');
      }
      WakeCv(s, s', c, h);
    }
  }

  lemma FirstAsleep(s: Sys, c: Cv)
    requires CvOk(s) && c in s.cvq && |s.cvq[c]| > 0
    ensures s.cvq[c][0] in s.phase && s.phase[s.cvq[c][0]] == CvAsleep(c)
  {
    hide Distinct, InSpin;
    assert s.cvq[c][0] in s.cvq[c];
  }

  lemma WakeCv(s: Sys, s': Sys, c: Cv, h: Thread)
    requires CvOk(s) && c in s.cvq && |s.cvq[c]| > 0 && h == s.cvq[c][0] && h in s.phase && s.phase[h] == CvAsleep(c)
    requires s' == s.(cvq := s.cvq[c := s.cvq[c][1..]], phase := s.phase[h := CvWoken(c)])
    ensures CvOk(s')
  {
    var q := s.cvq[c];
    assert q == [h] + q[1..] && h !in q[1..];
    forall d: Cv, t: Thread | d in s'.cvq
      ensures t in s'.cvq[d] <==> t in s'.phase && s'.phase[t] == CvAsleep(d)
    {
      assert t in s.cvq[d] <==> t in s.phase && s.phase[t] == CvAsleep(d);
    }
  }

  lemma {:induction false} WakeAllKeeps(s: Sys, c: Cv)
    requires SysOk(s) && c in s.cvq
    ensures SysOk(WokenAll(s, c))
    decreases |s.cvq[c]|
  {
    hide SysOk;
    if |s.cvq[c]| > 0 {
      WakeKeeps(s, c);
      WakeAllKeeps(WokenOne(s, c), c);
    }
  }

  // wchan_wakeall empties the channel and wakes exactly the threads that were on it.
  lemma {:induction false} WakesEveryone(s: Sys, c: Cv)
    requires SysOk(s) && c in s.cvq
    ensures c in WokenAll(s, c).cvq && WokenAll(s, c).cvq[c] == [] && WokenAll(s, c).phase.Keys == s.phase.Keys
    ensures forall t: Thread | t in s.phase :: WokenAll(s, c).phase[t] == if s.phase[t] == CvAsleep(c) then CvWoken(c)
            else s.phase[t]
    ensures WokenAll(s, c).holder == s.holder && WokenAll(s, c).lockq == s.lockq
    decreases |s.cvq[c]|
  {
    hide LockOk;
    if |s.cvq[c]| > 0 {
      var h := s.cvq[c][0];
      assert h in s.cvq[c];
      WakeKeeps(s, c);
      WakesEveryone(WokenOne(s, c), c);
    } else {
      assert forall t: Thread | t in s.phase && s.phase[t] == CvAsleep(c) :: t in s.cvq[c];
    }
  }

  // Every step of any thread keeps the invariant.
  lemma StepKeeps(s: Sys, s': Sys, t: Thread, a: Action)
    requires SysOk(s) && Step(s, s', t, a)
    ensures SysOk(s')
  {
    hide LockOk, CvOk, WokenAll, WokenOne, Unlocked, SpinFree;
    match a
    case Attempt => AttemptKeeps(s, s', t);
    case Release =>
      UnlockLock(s, s', t, Outside);
      UnlockCv(s, s', t, Outside);
    case WaitRelease =>
      UnlockLock(s, s', t, Released(s.phase[t].c));
      UnlockCv(s, s', t, Released(s.phase[t].c));
    case WaitStart(c) => WaitStartKeeps(s, s', t, c);
    case WaitSleep => WaitSleepKeeps(s, s', t, s.phase[t].c);
    case Signal(c) => CvKnown(s, c); WakeKeeps(s, c);
    case Broadcast(c) => CvKnown(s, c); WakeAllKeeps(s, c);
    case _ => MoveKeeps(s, s', t, s'.phase[t]);
  }

  lemma CvKnown(s: Sys, c: Cv)
    requires SpinFree(s, c)
    ensures c in s.cvq
  {}

  // ---------------------------------------------------------------- runs

  predicate Init(s: Sys) {
    && s.holder.None? && s.lockq == [] && s.spin.Keys == s.cvq.Keys
    && (forall c: Cv | c in s.spin :: s.spin[c].None? && s.cvq[c] == [])
    && forall t: Thread | t in s.phase :: s.phase[t].Outside?
  }

  ghost predicate Run(states: seq<Sys>, acts: seq<(Thread, Action)>) {
    && |states| == |acts| + 1 && Init(states[0])
    && forall i | 0 <= i < |acts| :: Step(states[i], states[i + 1], acts[i].0, acts[i].1)
  }

  lemma {:induction false} RunOk(states: seq<Sys>, acts: seq<(Thread, Action)>, n: nat)
    requires Run(states, acts) && n <= |acts|
    ensures SysOk(states[n])
  {
    if n > 0 {
      hide SysOk, Step, Init;
      RunOk(states, acts, n - 1);
      StepKeeps(states[n - 1], states[n], acts[n - 1].0, acts[n - 1].1);
    }
  }

  /**
   At every point of every run at most one thread is inside the lock, and when the lock is free
   while threads sleep on it, one of them has been woken and is on its way to take it.
   */
  lemma MutualExclusion(states: seq<Sys>, acts: seq<(Thread, Action)>, n: nat, t: Thread, u: Thread)
    requires Run(states, acts) && n <= |acts|
    ensures var s := states[n];
            && (t in s.phase && u in s.phase && Owns(s.phase[t]) && Owns(s.phase[u]) ==> t == u)
            && (t in s.phase && s.phase[t].LockAsleep? && s.holder.None? ==>
                 exists w: Thread :: w in s.phase && s.phase[w].LockWoken?)
  {
    hide Step, CvOk;
    RunOk(states, acts, n);
    var s := states[n];
    if t in s.phase && s.phase[t].LockAsleep? {
      assert t in s.lockq;
    }
  }

  // A thread that has given up the lock inside cv_wait and has not been woken since.
  predicate Waits(ph: Phase, c: Cv) {
    ph == Released(c) || ph == CvAsleep(c)
  }

  /**
   cv_wait is atomic: in every run, when a signal or broadcast takes effect, every thread that
   has given up the lock to wait on c is already on the channel. A broadcast therefore wakes all
   of them, and a signal wakes the one that has slept longest.
   */
  lemma WaitIsAtomic(states: seq<Sys>, acts: seq<(Thread, Action)>, n: nat, c: Cv, t: Thread)
    requires Run(states, acts) && n < |acts| && (acts[n].1 == Signal(c) || acts[n].1 == Broadcast(c))
    requires t in states[n].phase && Waits(states[n].phase[t], c)
    ensures c in states[n].cvq && t in states[n].cvq[c]
    ensures acts[n].1 == Broadcast(c) ==> t in states[n + 1].phase && states[n + 1].phase[t] == CvWoken(c)
    ensures acts[n].1 == Signal(c) ==>
              var h := states[n].cvq[c][0]; h in states[n + 1].phase && states[n + 1].phase[h] == CvWoken(c)
  {
    hide LockOk, WokenAll;
    RunOk(states, acts, n);
    var s := states[n];
    assert Step(s, states[n + 1], acts[n].0, acts[n].1);
    assert s.phase[t] != Released(c) by {
      assert InSpin(Released(c), c);
    }
    assert t in s.cvq[c];
    if acts[n].1.Broadcast? {
      WakesEveryone(s, c);
    }
  }

  // On its way out of cv_wait, contending for the lock.
  predicate Contends(ph: Phase) {
    ph == Wants(true) || ph == LockAsleep(true) || ph == LockWoken(true)
  }

  predicate Wakes(a: Action, c: Cv) {
    a == Signal(c) || a == Broadcast(c)
  }

  // What any step makes of a thread that is inside cv_wait.
  lemma WaitStep(s: Sys, s': Sys, t: Thread, a: Action, u: Thread, c: Cv)
    requires SysOk(s) && Step(s, s', t, a) && u in s.phase
    ensures u in s'.phase
    ensures s.phase[u] == Released(c) ==> Waits(s'.phase[u], c)
    ensures s.phase[u] == CvAsleep(c) ==> s'.phase[u] == CvAsleep(c) || (s'.phase[u] == CvWoken(c) && Wakes(a, c))
    ensures s.phase[u] == CvWoken(c) ==> s'.phase[u] == CvWoken(c) || s'.phase[u] == Wants(true)
    ensures Contends(s.phase[u]) ==> Contends(s'.phase[u]) || (s'.phase[u] == Holding && s'.holder == Some(u))
  {
    hide WokenAll, LockOk, CvOk;
    if a.Broadcast? {
      WakesEveryone(s, a.c);
    } else if a.Signal? && a.c in s.cvq && |s.cvq[a.c]| > 0 {
      FirstAsleep(s, a.c);
    }
  }

  // A thread somewhere between giving up the lock in cv_wait on c and having it back.
  predicate InWait(ph: Phase, c: Cv) {
    Waits(ph, c) || ph == CvWoken(c) || Contends(ph)
  }

  lemma {:induction false} WokenBefore(states: seq<Sys>, acts: seq<(Thread, Action)>, i: nat, n: nat, u: Thread, c: Cv)
    requires Run(states, acts) && i <= n <= |acts|
    requires u in states[i].phase && states[i].phase[u] == Released(c)
    requires forall j | i <= j <= n :: u in states[j].phase && InWait(states[j].phase[u], c)
    ensures Waits(states[n].phase[u], c) || exists j | i <= j < n :: Wakes(acts[j].1, c)
  {
    hide SysOk, Step, Init;
    if i < n {
      WokenBefore(states, acts, i, n - 1, u, c);
      RunOk(states, acts, n - 1);
      WaitStep(states[n - 1], states[n], acts[n - 1].0, acts[n - 1].1, u, c);
    }
  }

  /**
   cv_wait as a whole: in every run, a thread that has given up the lock to wait on c next gets
   out of cv_wait only as the lock's holder, and only after some signal or broadcast on c since.
   */
  lemma WaitReturnsLocked(states: seq<Sys>, acts: seq<(Thread, Action)>, i: nat, n: nat, u: Thread, c: Cv)
    requires Run(states, acts) && i < n <= |acts|
    requires u in states[i].phase && states[i].phase[u] == Released(c)
    requires forall j | i <= j < n :: u in states[j].phase && InWait(states[j].phase[u], c)
    requires !(u in states[n].phase && InWait(states[n].phase[u], c))
    ensures u in states[n].phase && states[n].phase[u] == Holding && states[n].holder == Some(u)
    ensures exists j | i <= j < n :: Wakes(acts[j].1, c)
  {
    hide SysOk, Step, Init;
    WokenBefore(states, acts, i, n - 1, u, c);
    RunOk(states, acts, n - 1);
    WaitStep(states[n - 1], states[n], acts[n - 1].0, acts[n - 1].1, u, c);
  }

  // ---------------------------------------------------------------- lock_acquire and lock_release

  // In lock_acquire: about to test the holder, asleep on the channel, or woken from it.
  predicate Acquiring(ph: Phase) {
    ph.Wants? || ph.LockAsleep? || ph.LockWoken?
  }

  // What any step makes of a thread in lock_acquire, and of one that has the lock.
  lemma AcquireStep(s: Sys, s': Sys, t: Thread, a: Action, u: Thread)
    requires SysOk(s) && Step(s, s', t, a) && u in s.phase
    ensures u in s'.phase
    ensures Acquiring(s.phase[u]) ==> Acquiring(s'.phase[u]) || (s'.phase[u] == Holding && s'.holder == Some(u))
    ensures Owns(s.phase[u]) ==> Owns(s'.phase[u]) || (t == u && (a.Release? || a.WaitRelease?))
    ensures Acquiring(s.phase[u]) && Owns(s'.phase[u]) ==> t == u && a.Attempt? && s.holder.None?
    ensures !Acquiring(s.phase[u]) && Owns(s'.phase[u]) ==> Owns(s.phase[u])
  {
    hide WokenAll, LockOk, CvOk;
    if a.Broadcast? {
      WakesEveryone(s, a.c);
    } else if a.Signal? && a.c in s.cvq && |s.cvq[a.c]| > 0 {
      FirstAsleep(s, a.c);
    }
  }

  /**
   lock_acquire as a whole: in every run, a thread that has called it gets out of it only as the
   lock's holder, at a moment when the lock was free.
   */
  lemma AcquireReturnsLocked(states: seq<Sys>, acts: seq<(Thread, Action)>, i: nat, n: nat, u: Thread)
    requires Run(states, acts) && i + 1 < n <= |acts| && acts[i] == (u, Ask)
    requires forall j | i < j < n :: u in states[j].phase && Acquiring(states[j].phase[u])
    requires !(u in states[n].phase && Acquiring(states[n].phase[u]))
    ensures u in states[n].phase && states[n].phase[u] == Holding && states[n].holder == Some(u)
    ensures states[n - 1].holder.None?
  {
    hide SysOk, Step, Init;
    RunOk(states, acts, n - 1);
    AcquireStep(states[n - 1], states[n], acts[n - 1].0, acts[n - 1].1, u);
  }

  // Calling lock_acquire does not return at once.
  lemma AskEnters(states: seq<Sys>, acts: seq<(Thread, Action)>, i: nat)
    requires Run(states, acts) && i < |acts| && acts[i].1.Ask?
    ensures acts[i].0 in states[i + 1].phase && Acquiring(states[i + 1].phase[acts[i].0])
  {
    assert Step(states[i], states[i + 1], acts[i].0, acts[i].1);
  }

  /**
   In every run the lock changes hands only through the holder: whoever has it at some point has it
   until its own lock_release, or the release inside its own cv_wait; and from then until that
   nobody else gets it.
   */
  lemma {:induction false} HeldUntilReleased(states: seq<Sys>, acts: seq<(Thread, Action)>, i: nat, n: nat, u: Thread)
    requires Run(states, acts) && i <= n <= |acts| && states[i].holder == Some(u)
    requires forall j | i <= j < n :: !(acts[j].0 == u && (acts[j].1.Release? || acts[j].1.WaitRelease?))
    ensures states[n].holder == Some(u) && u in states[n].phase && Owns(states[n].phase[u])
  {
    hide Step, Init, CvOk;
    RunOk(states, acts, n);
    if i < n {
      HeldUntilReleased(states, acts, i, n - 1, u);
      RunOk(states, acts, n - 1);
      AcquireStep(states[n - 1], states[n], acts[n - 1].0, acts[n - 1].1, u);
    }
  }

  /**
   lock_release as such: in every run it leaves the lock free and its caller outside, and wakes
   exactly the thread that has slept on the lock longest, if any; a thread that finds the lock held
   queues up behind all the others.
   */
  lemma LockQueue(states: seq<Sys>, acts: seq<(Thread, Action)>, n: nat)
    requires Run(states, acts) && n < |acts|
    ensures var (t, a) := acts[n]; var s, s' := states[n], states[n + 1];
            && (a.Release? || a.WaitRelease? ==>
                  && s.holder == Some(t) && s'.holder.None?
                  && (|s.lockq| == 0 ==> s'.lockq == [])
                  && (|s.lockq| > 0 ==> s'.lockq == s.lockq[1..] && s.lockq[0] in s'.phase
                                        && s'.phase[s.lockq[0]].LockWoken?))
            && (a.Attempt? && s.holder.Some? ==> s'.lockq == s.lockq + [t] && s'.holder == s.holder)
            && (!a.Release? && !a.WaitRelease? && !a.Attempt? ==> s'.lockq == s.lockq && s'.holder == s.holder)
            && (a.Release? ==> t in s'.phase && s'.phase[t].Outside?)
  {
    hide WokenAll, CvOk;
    RunOk(states, acts, n);
    var s := states[n];
    assert Step(s, states[n + 1], acts[n].0, acts[n].1);
    if acts[n].1.Broadcast? {
      WakesEveryone(s, acts[n].1.c);
    }
    assert |s.lockq| > 0 ==> s.lockq[0] in s.lockq;
  }

  /**
   The condition variables' side: in every run a thread goes to sleep behind all the others on its
   channel; cv_signal takes off exactly the one that has slept longest, if any, cv_broadcast all of
   them, of that channel only; and nothing else wakes a sleeper.
   */
  lemma CvQueue(states: seq<Sys>, acts: seq<(Thread, Action)>, n: nat, c: Cv, u: Thread)
    requires Run(states, acts) && n < |acts| && c in states[n].cvq && u in states[n].phase
    ensures var (t, a) := acts[n]; var s, s' := states[n], states[n + 1]; var q := s.cvq[c];
            && c in s'.cvq && u in s'.phase
            && (a == Signal(c) ==> s'.cvq[c] == if |q| == 0 then [] else q[1..])
            && (a == Broadcast(c) ==> s'.cvq[c] == [])
            && (!Wakes(a, c) ==> s'.cvq[c] == q || (s'.cvq[c] == q + [t] && a.WaitSleep? && s.phase[t] == Released(c)))
            && (s.phase[u] == CvAsleep(c) ==>
                  (s'.phase[u] == CvWoken(c) <==> a == Broadcast(c) || (a == Signal(c) && |q| > 0 && u == q[0])))
  {
    hide WokenAll, LockOk;
    RunOk(states, acts, n);
    var s := states[n];
    var (t, a) := acts[n];
    assert Step(s, states[n + 1], t, a);
    if a.Broadcast? {
      WakesEveryone(s, a.c);
      OtherChannels(s, a.c, c);
    } else if a.Signal? && |s.cvq[a.c]| > 0 {
      FirstAsleep(s, a.c);
    }
    assert s.phase[u] == CvAsleep(c) ==> u in s.cvq[c];
  }

  lemma {:induction false} OtherChannels(s: Sys, c: Cv, d: Cv)
    requires c in s.cvq && d in s.cvq
    ensures d in WokenAll(s, c).cvq && (d != c ==> WokenAll(s, c).cvq[d] == s.cvq[d])
    decreases |s.cvq[c]|
  {
    if |s.cvq[c]| > 0 {
      OtherChannels(WokenOne(s, c), c, d);
    }
  }
}
