/**
 Interrupt levels and spinlocks on any number of processors: the per-thread
 count t_iplhigh_count, the per-processor count c_spinlocks, and the run-queue
 lock that one thread takes and the next one releases.
 */
module Spl {
  import opened Basics

  type Thread = nat

  datatype Lock = RunQueue(c: nat) | Other(n: nat)

  /**
   What a thread has to undo, innermost last: an spl call that saved the old level, or an
   interrupt that did or did not adjust the recorded level on entry.
   */
  datatype Frame = SplCall(saved: bool) | Interrupt(adjust: bool)

  // t_curspl (true for IPL_HIGH), t_iplhigh_count, and the calls in progress.
  datatype ThreadState = ThreadState(high: bool, count: nat, frames: seq<Frame>)

  /**
   Where a processor is inside spinlock_acquire or spinlock_release: waiting for the lock word;
   the word is set but the holder is not; the holder is cleared but the word is not.
   */
  datatype Busy = NotBusy | Spinning(l: Lock) | Got(l: Lock) | Releasing(l: Lock)

  // window: interrupts are on for a moment inside cpu_idle.
  datatype Cpu = Cpu(cur: Thread, irq: bool, spinlocks: nat, held: set<Lock>, busy: Busy, window: bool)

  // taker is the processor that set a lock's word; holder is splk_holder.
  datatype Sys = Sys(
    cpus: seq<Cpu>,
    threads: map<Thread, ThreadState>,
    taker: map<Lock, Option<nat>>,
    holder: map<Lock, Option<nat>>)

  function B2N(b: bool): nat {
    if b then 1 else 0
  }

  // ---------------------------------------------------------------- spl.c

  // splraise: interrupts go off on the first raise.
  function Raised(th: ThreadState): ThreadState {
    th.(count := th.count + 1)
  }

  // spllower: interrupts go on again only on the last lower.
  function Lowered(th: ThreadState): ThreadState
    requires th.count > 0
  {
    th.(count := th.count - 1)
  }

  // splhigh, keeping the old level for a later splx.
  function High(th: ThreadState): ThreadState {
    (if th.high then th else Raised(th)).(high := true, frames := th.frames + [SplCall(th.high)])
  }

  // splx with the level saved by the innermost spl call; spl0 in thread_startup is the same.
  function Restored(th: ThreadState): ThreadState
    requires |th.frames| > 0 && th.frames[|th.frames| - 1].SplCall? && (th.high && !th.frames[|th.frames| - 1].saved ==>
              th.count > 0)
  {
    var n := |th.frames| - 1;
    var saved := th.frames[n].saved;
    (if th.high && !saved then Lowered(th) else th).(high := saved, frames := th.frames[..n])
  }

  // ---------------------------------------------------------------- the invariant

  // Levels nest: only the outermost call in progress found interrupts enabled.
  predicate ThreadOk(th: ThreadState) {
    && (th.high <==> |th.frames| > 0)
    && forall i | 0 <= i < |th.frames| ::
         match th.frames[i]
         case SplCall(saved) => saved <==> i > 0
         case Interrupt(adjust) => adjust <==> i == 0
  }

  // A thread that is not running: inside thread_switch, one run-queue release still to do.
  predicate Waiting(th: ThreadState) {
    ThreadOk(th) && |th.frames| > 0 && th.frames[|th.frames| - 1].SplCall? && th.count == 2
  }

  predicate Owns(cpu: Cpu, l: Lock) {
    l in cpu.held || cpu.busy == Got(l) || cpu.busy == Releasing(l)
  }

  /**
   The running thread's count is its level plus the spinlock releases it owes; c_spinlocks is
   the number of locks held or being acquired; interrupts are on exactly when the count is zero,
   apart from the window in cpu_idle.
   */
  predicate CpuOk(cpu: Cpu, th: ThreadState) {
    && ThreadOk(th)
    && th.count == B2N(th.high) + cpu.spinlocks + B2N(cpu.busy.Releasing?)
    && cpu.spinlocks == |cpu.held| + B2N(cpu.busy.Spinning? || cpu.busy.Got?)
    && (cpu.irq <==> th.count == 0 || cpu.window)
    && (cpu.window ==> th.high && th.count == 1 && cpu.busy.NotBusy?)
    && (!cpu.busy.NotBusy? ==> cpu.busy.l !in cpu.held)
  }

  ghost predicate LocksOk(s: Sys) {
    && (forall l: Lock, c: nat | l in s.taker && s.taker[l] == Some(c) :: c < |s.cpus|)
    && (forall c: nat, l: Lock | c < |s.cpus| :: Owns(s.cpus[c], l) <==> l in s.taker && s.taker[l] == Some(c))
    && (forall c: nat, l: Lock | c < |s.cpus| :: l in s.cpus[c].held <==> l in s.holder && s.holder[l] == Some(c))
    && s.taker.Keys == s.holder.Keys
  }

  ghost predicate ThreadsOk(s: Sys) {
    && (forall c | 0 <= c < |s.cpus| :: s.cpus[c].cur in s.threads && CpuOk(s.cpus[c], s.threads[s.cpus[c].cur]))
    && (forall c, d | 0 <= c < d < |s.cpus| :: s.cpus[c].cur != s.cpus[d].cur)
    && (forall t: Thread | t in s.threads && !Current(s, t) :: Waiting(s.threads[t]))
  }

  // Some processor has t as its current thread.
  predicate Current(s: Sys, t: Thread) {
    exists c | 0 <= c < |s.cpus| :: s.cpus[c].cur == t
  }

  ghost predicate SysOk(s: Sys) {
    ThreadsOk(s) && LocksOk(s)
  }

  // ---------------------------------------------------------------- steps

  datatype Action =
    | SplHigh | SplX
    | AcquireStart(l: Lock) | AcquireGet | AcquireDone
    | ReleaseHolder(l: Lock) | ReleaseWord
    | Switch(next: Thread) | Fork(t: Thread)
    | WindowOpen | WindowClose | TakeInterrupt | EndInterrupt

  // The running thread and its processor after the thread's count changed: interrupts follow it.
  predicate Now(s: Sys, s': Sys, c: nat, th: ThreadState, cpu: Cpu)
    requires c < |s.cpus|
  {
    && s'.cpus == s.cpus[c := cpu] && s'.threads == s.threads[s.cpus[c].cur := th]
  }

  // cpu_irqoff when the count leaves zero, cpu_irqon when it returns to zero, nothing otherwise.
  function Irq(cpu: Cpu, before: nat, after: nat): bool {
    if before == 0 && after > 0 then false else if before > 0 && after == 0 then true else cpu.irq
  }

  ghost predicate LevelStep(s: Sys, s': Sys, c: nat, a: Action)
    requires c < |s.cpus| && s.cpus[c].cur in s.threads
  {
    var cpu, th := s.cpus[c], s.threads[s.cpus[c].cur];
    && !cpu.window && s'.taker == s.taker && s'.holder == s.holder
    && match a
       case SplHigh =>
         Now(s, s', c, High(th), cpu.(irq := Irq(cpu, th.count, High(th).count)))
       case SplX =>
         && |th.frames| > 0 && th.frames[|th.frames| - 1].SplCall? && (th.high && !th.frames[|th.frames| - 1].saved ==>
              th.count > 0)
         && Now(s, s', c, Restored(th), cpu.(irq := Irq(cpu, th.count, Restored(th).count)))
       case _ => false
  }

  // spinlock_acquire and spinlock_release, one visible write at a time.
  ghost predicate LockStep(s: Sys, s': Sys, c: nat, a: Action)
    requires c < |s.cpus| && s.cpus[c].cur in s.threads
  {
    var cpu, th := s.cpus[c], s.threads[s.cpus[c].cur];
    && !cpu.window
    && match a
       case AcquireStart(l) =>
         && cpu.busy.NotBusy? && l in s.holder && s.holder[l] != Some(c)
         && Now(s, s', c, Raised(th), cpu.(irq := Irq(cpu, th.count, th.count + 1), spinlocks := cpu.spinlocks + 1,
           busy := Spinning(l)))
         && s'.taker == s.taker && s'.holder == s.holder
       case AcquireGet =>
         && cpu.busy.Spinning? && cpu.busy.l in s.taker && s.taker[cpu.busy.l].None?
         && Now(s, s', c, th, cpu.(busy := Got(cpu.busy.l)))
         && s'.taker == s.taker[cpu.busy.l := Some(c)] && s'.holder == s.holder
       case AcquireDone =>
         && cpu.busy.Got?
         && Now(s, s', c, th, cpu.(busy := NotBusy, held := cpu.held + {cpu.busy.l}))
         && s'.taker == s.taker && s'.holder == s.holder[cpu.busy.l := Some(c)]
       case ReleaseHolder(l) =>
         && cpu.busy.NotBusy? && l in s.holder && s.holder[l] == Some(c) && cpu.spinlocks > 0
         && Now(s, s', c, th, cpu.(busy := Releasing(l), held := cpu.held - {l}, spinlocks := cpu.spinlocks - 1))
         && s'.taker == s.taker && s'.holder == s.holder[l := None]
       case ReleaseWord =>
         && cpu.busy.Releasing? && th.count > 0
         && Now(s, s', c, Lowered(th), cpu.(busy := NotBusy, irq := Irq(cpu, th.count, th.count - 1)))
         && s'.taker == s.taker[cpu.busy.l := None] && s'.holder == s.holder
       case _ => false
  }

  // Inside thread_switch with nothing but the run queue locked, as its callers must arrange.
  predicate MaySwitch(s: Sys, c: nat)
    requires c < |s.cpus| && s.cpus[c].cur in s.threads
  {
    var cpu, th := s.cpus[c], s.threads[s.cpus[c].cur];
    !cpu.window && cpu.busy.NotBusy? && cpu.held == {RunQueue(c)} && |th.frames| > 0
      && th.frames[|th.frames| - 1].SplCall?
  }

  ghost predicate SwitchStep(s: Sys, s': Sys, c: nat, a: Action)
    requires c < |s.cpus| && s.cpus[c].cur in s.threads
  {
    var cpu, th := s.cpus[c], s.threads[s.cpus[c].cur];
    && s'.taker == s.taker && s'.holder == s.holder
    && match a
       case Switch(next) =>
         && MaySwitch(s, c) && next in s.threads && (next == cpu.cur || !Current(s, next))
         && s'.cpus == s.cpus[c := cpu.(cur := next)] && s'.threads == s.threads
       case Fork(t) =>
         && !cpu.window && t !in s.threads
         && s'.cpus == s.cpus && s'.threads == s.threads[t := ThreadState(true, 2, [SplCall(false)])]
       case WindowOpen =>
         && !cpu.window && cpu.busy.NotBusy? && cpu.held == {} && th.high && th.count == 1
         && Now(s, s', c, th, cpu.(window := true, irq := true))
       case WindowClose =>
         cpu.window && Now(s, s', c, th, cpu.(window := false, irq := false))
       case TakeInterrupt =>
         && cpu.irq
         && Now(s, s', c, if th.high then th.(frames := th.frames + [Interrupt(false)])
                          else th.(high := true, count := th.count + 1, frames := th.frames + [Interrupt(true)]),
                cpu.(irq := false, window := false))
       case EndInterrupt =>
         && !cpu.window && cpu.busy.NotBusy? && cpu.held == {} && |th.frames| > 0
           && th.frames[|th.frames| - 1].Interrupt?
         && var n := |th.frames| - 1;
            var adjust := th.frames[n].adjust;
            && (adjust ==> th.count > 0)
            && Now(s, s', c, if adjust then ThreadState(false, th.count - 1, th.frames[..n])
              else th.(frames := th.frames[..n]),
                   cpu.(irq := true, window := !adjust))
       case _ => false
  }

  ghost predicate Step(s: Sys, s': Sys, c: nat, a: Action) {
    && c < |s.cpus| && s.cpus[c].cur in s.threads
    && (LevelStep(s, s', c, a) || LockStep(s, s', c, a) || SwitchStep(s, s', c, a))
  }

  // ---------------------------------------------------------------- each step keeps the invariant

  // Only the running thread of c and c itself changed.
  lemma NowKeeps(s: Sys, s': Sys, c: nat, th: ThreadState, cpu: Cpu)
    requires ThreadsOk(s) && c < |s.cpus| && Now(s, s', c, th, cpu) && cpu.cur == s.cpus[c].cur && CpuOk(cpu, th)
    ensures ThreadsOk(s')
  {
    hide CpuOk, Waiting;
    forall t: Thread | t in s'.threads && !Current(s', t)
      ensures Waiting(s'.threads[t])
    {
      assert forall d | 0 <= d < |s.cpus| :: s'.cpus[d].cur == s.cpus[d].cur;
      assert !Current(s, t);
    }
    forall d | 0 <= d < |s.cpus|
      ensures s'.cpus[d].cur in s'.threads && CpuOk(s'.cpus[d], s'.threads[s'.cpus[d].cur])
    {
      assert CpuOk(s.cpus[d], s.threads[s.cpus[d].cur]);
    }
  }

  lemma LocksSame(s: Sys, s': Sys, c: nat)
    requires LocksOk(s) && c < |s.cpus| == |s'.cpus| && s'.cpus == s.cpus[c := s'.cpus[c]]
    requires s'.cpus[c].held == s.cpus[c].held && s'.taker == s.taker && s'.holder == s.holder
    requires forall l: Lock :: Owns(s'.cpus[c], l) <==> Owns(s.cpus[c], l)
    ensures LocksOk(s')
  {
    hide Owns;
  }

  lemma PushFrame(th: ThreadState, f: Frame, count: nat)
    requires ThreadOk(th) && (f.SplCall? ==> f.saved == th.high) && (f.Interrupt? ==> f.adjust == !th.high)
    ensures ThreadOk(ThreadState(true, count, th.frames + [f]))
  {}

  lemma PopFrame(th: ThreadState, count: nat)
    requires ThreadOk(th) && |th.frames| > 0
    ensures ThreadOk(ThreadState(|th.frames| > 1, count, th.frames[..|th.frames| - 1]))
  {}

  lemma LevelKeeps(s: Sys, s': Sys, c: nat, a: Action)
    requires SysOk(s) && c < |s.cpus| && s.cpus[c].cur in s.threads && LevelStep(s, s', c, a)
    ensures SysOk(s')
  {
    var cpu, th := s.cpus[c], s.threads[s.cpus[c].cur];
    assert CpuOk(cpu, th);
    if a.SplHigh? {
      PushFrame(th, SplCall(th.high), High(th).count);
    } else {
      PopFrame(th, Restored(th).count);
    }
    hide ThreadsOk, LocksOk;
    var th' := if a.SplHigh? then High(th) else Restored(th);
    assert CpuOk(s'.cpus[c], th') by {
      hide ThreadOk;
      if a.SplX? {
        TopFrame(th);
      }
    }
    NowKeeps(s, s', c, th', s'.cpus[c]);
    LocksSame(s, s', c);
  }

  lemma TopFrame(th: ThreadState)
    requires ThreadOk(th) && |th.frames| > 0
    ensures th.high
    ensures var f := th.frames[|th.frames| - 1];
            (f.SplCall? ==> (f.saved <==> |th.frames| > 1)) && (f.Interrupt? ==> (f.adjust <==> |th.frames| == 1))
  {}

  // What each write inside spinlock_acquire and spinlock_release does to the counts.
  lemma LockCounts(cpu: Cpu, th: ThreadState, cpu': Cpu, th': ThreadState, l: Lock)
    requires CpuOk(cpu, th) && !cpu.window && ThreadOk(th')
    requires
      || (cpu.busy.NotBusy? && l !in cpu.held && th' == Raised(th)
          && cpu' == cpu.(irq := Irq(cpu, th.count, th.count + 1), spinlocks := cpu.spinlocks + 1, busy := Spinning(l)))
      || (cpu.busy == Spinning(l) && th' == th && cpu' == cpu.(busy := Got(l)))
      || (cpu.busy == Got(l) && th' == th && cpu' == cpu.(busy := NotBusy, held := cpu.held + {l}))
      || (cpu.busy.NotBusy? && l in cpu.held && th' == th && cpu.spinlocks > 0
          && cpu' == cpu.(busy := Releasing(l), held := cpu.held - {l}, spinlocks := cpu.spinlocks - 1))
      || (cpu.busy == Releasing(l) && th.count > 0 && th' == Lowered(th)
          && cpu' == cpu.(busy := NotBusy, irq := Irq(cpu, th.count, th.count - 1)))
    ensures CpuOk(cpu', th')
  {
    hide ThreadOk;
    if cpu.busy == Got(l) {
      assert |cpu.held + {l}| == |cpu.held| + 1;
    } else if cpu.busy.NotBusy? && l in cpu.held {
      assert |cpu.held - {l}| == |cpu.held| - 1;
    }
  }

  // Processor c's relation to lock l changed, and its words with it; nobody else was involved.
  lemma OwnersChange(s: Sys, s': Sys, c: nat, l: Lock)
    requires LocksOk(s) && c < |s.cpus| == |s'.cpus| && s'.cpus == s.cpus[c := s'.cpus[c]] && l in s.taker
    requires forall k: Lock | k != l :: Owns(s'.cpus[c], k) <==> Owns(s.cpus[c], k)
    requires forall k: Lock | k != l :: k in s'.cpus[c].held <==> k in s.cpus[c].held
    requires l in s'.taker && s'.taker == s.taker[l := s'.taker[l]]
    requires Owns(s'.cpus[c], l) <==> s'.taker[l] == Some(c)
    requires l in s'.holder && s'.holder == s.holder[l := s'.holder[l]]
    requires l in s'.cpus[c].held <==> s'.holder[l] == Some(c)
    requires s'.taker[l] == s.taker[l] || (s'.taker[l] == Some(c) && s.taker[l].None?)
             || (s'.taker[l].None? && s.taker[l] == Some(c))
    requires s'.holder[l] == s.holder[l] || (s.taker[l] == Some(c) && (s'.holder[l].None? || s'.holder[l] == Some(c)))
    ensures LocksOk(s')
  {
    hide Owns;
    TakersChange(s, s', c, l);
    HoldersChange(s, s', c, l);
  }

  lemma TakersChange(s: Sys, s': Sys, c: nat, l: Lock)
    requires LocksOk(s) && c < |s.cpus| == |s'.cpus| && s'.cpus == s.cpus[c := s'.cpus[c]] && l in s.taker
    requires forall k: Lock | k != l :: Owns(s'.cpus[c], k) <==> Owns(s.cpus[c], k)
    requires l in s'.taker && s'.taker == s.taker[l := s'.taker[l]]
    requires Owns(s'.cpus[c], l) <==> s'.taker[l] == Some(c)
    requires s'.taker[l] == s.taker[l] || (s'.taker[l] == Some(c) && s.taker[l].None?)
             || (s'.taker[l].None? && s.taker[l] == Some(c))
    ensures forall d: nat, k: Lock | d < |s.cpus| ::
              Owns(s'.cpus[d], k) <==> k in s'.taker && s'.taker[k] == Some(d)
    ensures forall k: Lock, d: nat | k in s'.taker && s'.taker[k] == Some(d) :: d < |s.cpus|
  {
    hide Owns;
    forall d: nat, k: Lock | d < |s.cpus|
      ensures Owns(s'.cpus[d], k) <==> k in s'.taker && s'.taker[k] == Some(d)
    {
      assert Owns(s.cpus[d], k) <==> k in s.taker && s.taker[k] == Some(d);
    }
  }

  lemma HoldersChange(s: Sys, s': Sys, c: nat, l: Lock)
    requires LocksOk(s) && c < |s.cpus| == |s'.cpus| && s'.cpus == s.cpus[c := s'.cpus[c]] && l in s.taker
    requires forall k: Lock | k != l :: k in s'.cpus[c].held <==> k in s.cpus[c].held
    requires l in s'.holder && s'.holder == s.holder[l := s'.holder[l]]
    requires l in s'.cpus[c].held <==> s'.holder[l] == Some(c)
    requires s'.holder[l] == s.holder[l] || (s.taker[l] == Some(c) && (s'.holder[l].None? || s'.holder[l] == Some(c)))
    ensures forall d: nat, k: Lock | d < |s.cpus| ::
              k in s'.cpus[d].held <==> k in s'.holder && s'.holder[k] == Some(d)
  {
    forall d: nat, k: Lock | d < |s.cpus|
      ensures k in s'.cpus[d].held <==> k in s'.holder && s'.holder[k] == Some(d)
    {
      assert k in s.cpus[d].held <==> k in s.holder && s.holder[k] == Some(d);
      if k == l && d != c {
        OnlyTaker(s, d, l);
      }
    }
  }

  // A processor that holds a lock is the one that took its word.
  lemma OnlyTaker(s: Sys, d: nat, l: Lock)
    requires LocksOk(s) && d < |s.cpus| && l in s.taker
    ensures l in s.cpus[d].held ==> s.taker[l] == Some(d)
  {
    assert l in s.cpus[d].held ==> Owns(s.cpus[d], l);
  }

  // The lock an acquire or release is about.
  function Subject(cpu: Cpu, a: Action): Lock
    requires a.AcquireStart? || a.ReleaseHolder? || !cpu.busy.NotBusy?
  {
    if a.AcquireStart? || a.ReleaseHolder? then a.l else cpu.busy.l
  }

  lemma LockThreads(s: Sys, s': Sys, c: nat, a: Action)
    requires ThreadsOk(s) && c < |s.cpus| && s.cpus[c].cur in s.threads && LockStep(s, s', c, a)
    requires var l := Subject(s.cpus[c], a); l in s.cpus[c].held <==> l in s.holder && s.holder[l] == Some(c)
    ensures ThreadsOk(s')
  {
    var cpu, th := s.cpus[c], s.threads[s.cpus[c].cur];
    assert CpuOk(cpu, th) && ThreadOk(th);
    hide ThreadsOk, CpuOk, ThreadOk;
    assert ThreadOk(s'.threads[cpu.cur]) by {
      SameFrames(th, s'.threads[cpu.cur]);
    }
    LockCounts(cpu, th, s'.cpus[c], s'.threads[cpu.cur], Subject(cpu, a));
    NowKeeps(s, s', c, s'.threads[cpu.cur], s'.cpus[c]);
  }

  lemma SameFrames(th: ThreadState, th': ThreadState)
    requires ThreadOk(th) && th'.high == th.high && th'.frames == th.frames
    ensures ThreadOk(th')
  {}

  // A step of spinlock_acquire or spinlock_release is about one lock.
  lemma OneLock(s: Sys, s': Sys, c: nat, a: Action)
    requires c < |s.cpus| && s.cpus[c].cur in s.threads && LockStep(s, s', c, a)
    requires a.AcquireStart? || a.ReleaseHolder? || !s.cpus[c].busy.NotBusy?
    requires var cpu, l := s.cpus[c], Subject(s.cpus[c], a);
             && l in s.taker && l in s.holder
             && (Owns(cpu, l) <==> s.taker[l] == Some(c)) && (l in cpu.held <==> s.holder[l] == Some(c))
    requires !s.cpus[c].busy.NotBusy? ==> s.cpus[c].busy.l !in s.cpus[c].held
    ensures |s'.cpus| == |s.cpus| && s'.cpus == s.cpus[c := s'.cpus[c]]
    ensures var l := Subject(s.cpus[c], a);
            && (forall k: Lock | k != l :: Owns(s'.cpus[c], k) <==> Owns(s.cpus[c], k))
            && (forall k: Lock | k != l :: k in s'.cpus[c].held <==> k in s.cpus[c].held)
            && l in s'.taker && s'.taker == s.taker[l := s'.taker[l]]
            && (Owns(s'.cpus[c], l) <==> s'.taker[l] == Some(c))
            && l in s'.holder && s'.holder == s.holder[l := s'.holder[l]]
            && (l in s'.cpus[c].held <==> s'.holder[l] == Some(c))
            && (s'.taker[l] == s.taker[l] || (s'.taker[l] == Some(c) && s.taker[l].None?)
                || (s'.taker[l].None? && s.taker[l] == Some(c)))
            && (s'.holder[l] == s.holder[l]
                || (s.taker[l] == Some(c) && (s'.holder[l].None? || s'.holder[l] == Some(c))))
  {}

  lemma LockWords(s: Sys, s': Sys, c: nat, a: Action)
    requires LocksOk(s) && c < |s.cpus| && s.cpus[c].cur in s.threads && LockStep(s, s', c, a)
    requires !s.cpus[c].busy.NotBusy? ==> s.cpus[c].busy.l !in s.cpus[c].held
    ensures LocksOk(s')
  {
    var cpu, l := s.cpus[c], Subject(s.cpus[c], a);
    assert Owns(cpu, l) <==> l in s.taker && s.taker[l] == Some(c);
    assert l in cpu.held <==> l in s.holder && s.holder[l] == Some(c);
    assert l in s.taker && l in s.holder;
    hide LocksOk;
    OneLock(s, s', c, a);
    hide LockStep, Owns;
    OwnersChange(s, s', c, l);
  }

  lemma LockKeeps(s: Sys, s': Sys, c: nat, a: Action)
    requires SysOk(s) && c < |s.cpus| && s.cpus[c].cur in s.threads && LockStep(s, s', c, a)
    ensures SysOk(s')
  {
    var l := Subject(s.cpus[c], a);
    assert l in s.cpus[c].held <==> l in s.holder && s.holder[l] == Some(c);
    assert CpuOk(s.cpus[c], s.threads[s.cpus[c].cur]);
    hide ThreadsOk, LocksOk, LockStep, ThreadOk;
    LockThreads(s, s', c, a);
    LockWords(s, s', c, a);
  }

  // The context switch: the lock taken by one thread is the one the next thread owes.
  lemma SwitchCounts(cpu: Cpu, th: ThreadState, next: ThreadState, to: Thread)
    requires CpuOk(cpu, th) && !cpu.window && cpu.busy.NotBusy? && |cpu.held| == 1
    requires |th.frames| > 0 && th.frames[|th.frames| - 1].SplCall? && Waiting(next)
    ensures Waiting(th) && CpuOk(cpu.(cur := to), next)
  {}

  lemma SwitchKeeps(s: Sys, s': Sys, c: nat, next: Thread)
    requires SysOk(s) && c < |s.cpus| && s.cpus[c].cur in s.threads && SwitchStep(s, s', c, Switch(next))
    ensures SysOk(s')
  {
    var cpu := s.cpus[c];
    if next == cpu.cur {
      assert s'.cpus == s.cpus;
    } else {
      assert CpuOk(cpu, s.threads[cpu.cur]) && Waiting(s.threads[next]);
      assert LocksOk(s') by {
        hide ThreadsOk, LocksOk, CpuOk, Waiting;
        LocksSame(s, s', c);
      }
      assert |{RunQueue(c)}| == 1;
      SwitchCounts(cpu, s.threads[cpu.cur], s.threads[next], next);
      hide LocksOk, CpuOk, Waiting;
      SwitchThreads(s, s', c, next);
    }
  }

  lemma SwitchThreads(s: Sys, s': Sys, c: nat, next: Thread)
    requires ThreadsOk(s) && c < |s.cpus| && next in s.threads && !Current(s, next)
    requires s'.cpus == s.cpus[c := s.cpus[c].(cur := next)] && s'.threads == s.threads
    requires Waiting(s.threads[s.cpus[c].cur]) && CpuOk(s'.cpus[c], s.threads[next])
    ensures ThreadsOk(s')
  {
    hide CpuOk, Waiting;
    forall t: Thread | t in s'.threads && !Current(s', t)
      ensures Waiting(s'.threads[t])
    {
      assert forall d | 0 <= d < |s.cpus| && d != c :: s'.cpus[d].cur == s.cpus[d].cur;
      assert t != s.cpus[c].cur ==> !Current(s, t);
    }
    forall d | 0 <= d < |s.cpus|
      ensures s'.cpus[d].cur in s'.threads && CpuOk(s'.cpus[d], s'.threads[s'.cpus[d].cur])
    {
      assert CpuOk(s.cpus[d], s.threads[s.cpus[d].cur]);
    }
  }

  lemma ForkKeeps(s: Sys, s': Sys, c: nat, t: Thread)
    requires SysOk(s) && c < |s.cpus| && s.cpus[c].cur in s.threads && SwitchStep(s, s', c, Fork(t))
    ensures SysOk(s')
  {
    assert Waiting(s'.threads[t]);
    hide CpuOk, Waiting;
    assert LocksOk(s') by {
      hide ThreadsOk, LocksOk;
      assert s'.cpus == s.cpus[c := s.cpus[c]];
      LocksSame(s, s', c);
    }
    forall u: Thread | u in s'.threads && !Current(s', u)
      ensures Waiting(s'.threads[u])
    {
      assert u != t ==> !Current(s, u);
    }
  }

  // Interrupts, and the window in cpu_idle: only the running thread and its processor change.
  lemma InterruptKeeps(s: Sys, s': Sys, c: nat, a: Action)
    requires SysOk(s) && c < |s.cpus| && s.cpus[c].cur in s.threads && SwitchStep(s, s', c, a) && !a.Switch? && !a.Fork?
    ensures SysOk(s')
  {
    var cpu, th := s.cpus[c], s.threads[s.cpus[c].cur];
    assert CpuOk(cpu, th) && ThreadOk(th);
    hide ThreadsOk, LocksOk;
    var th' := s'.threads[cpu.cur];
    assert ThreadOk(th') by {
      if a.TakeInterrupt? {
        PushFrame(th, Interrupt(!th.high), th'.count);
      } else if a.EndInterrupt? {
        PopFrame(th, th'.count);
        TopFrame(th);
      }
    }
    assert CpuOk(s'.cpus[c], th') by {
      if a.EndInterrupt? {
        TopFrame(th);
      }
      hide ThreadOk;
    }
    hide CpuOk, ThreadOk;
    NowKeeps(s, s', c, th', s'.cpus[c]);
    LocksSame(s, s', c);
  }

  lemma StepKeeps(s: Sys, s': Sys, c: nat, a: Action)
    requires SysOk(s) && Step(s, s', c, a)
    ensures SysOk(s')
  {
    hide SysOk, LevelStep, LockStep, SwitchStep;
    if LevelStep(s, s', c, a) {
      LevelKeeps(s, s', c, a);
    } else if LockStep(s, s', c, a) {
      LockKeeps(s, s', c, a);
    } else if a.Switch? {
      SwitchKeeps(s, s', c, a.next);
    } else if a.Fork? {
      ForkKeeps(s, s', c, a.t);
    } else {
      InterruptKeeps(s, s', c, a);
    }
  }

  // ---------------------------------------------------------------- runs

  // Every processor in its first thread as thread_create made it, no lock held.
  ghost predicate Init(s: Sys) {
    && (forall c | 0 <= c < |s.cpus| ::
          && s.cpus[c] == Cpu(s.cpus[c].cur, false, 0, {}, NotBusy, false)
          && s.cpus[c].cur in s.threads && s.threads[s.cpus[c].cur] == ThreadState(true, 1, [SplCall(false)]))
    && (forall c, d | 0 <= c < d < |s.cpus| :: s.cpus[c].cur != s.cpus[d].cur)
    && (forall t: Thread | t in s.threads :: Current(s, t))
    && s.taker.Keys == s.holder.Keys
    && (forall l: Lock | l in s.taker :: s.taker[l].None? && s.holder[l].None?)
  }

  ghost predicate Run(states: seq<Sys>, acts: seq<(nat, Action)>) {
    && |states| == |acts| + 1 && Init(states[0])
    && forall i | 0 <= i < |acts| :: Step(states[i], states[i + 1], acts[i].0, acts[i].1)
  }

  lemma {:induction false} RunOk(states: seq<Sys>, acts: seq<(nat, Action)>, n: nat)
    requires Run(states, acts) && n <= |acts|
    ensures SysOk(states[n])
  {
    if n > 0 {
      hide SysOk, Step, Init;
      RunOk(states, acts, n - 1);
      StepKeeps(states[n - 1], states[n], acts[n - 1].0, acts[n - 1].1);
    }
  }

  /**
   At every point of every run, on every processor: the running thread's count is its level plus
   the spinlocks it must still release; c_spinlocks is what the processor holds or is acquiring,
   although run-queue locks are released by another thread than took them; and interrupts are
   on exactly when the count is zero, except in cpu_idle's window.
   */
  lemma CountsAgree(states: seq<Sys>, acts: seq<(nat, Action)>, n: nat, c: nat)
    requires Run(states, acts) && n <= |acts| && c < |states[n].cpus|
    ensures var cpu := states[n].cpus[c];
            && cpu.cur in states[n].threads
            && var th := states[n].threads[cpu.cur];
               && th.count == B2N(th.high) + cpu.spinlocks + B2N(cpu.busy.Releasing?)
               && cpu.spinlocks == |cpu.held| + B2N(cpu.busy.Spinning? || cpu.busy.Got?)
               && (cpu.irq <==> th.count == 0 || cpu.window)
               && (cpu.window ==> th.high && th.count == 1 && cpu.held == {})
  {
    hide Step, Init, LocksOk;
    RunOk(states, acts, n);
    var cpu := states[n].cpus[c];
    assert CpuOk(cpu, states[n].threads[cpu.cur]);
    if cpu.window {
      assert |cpu.held| == 0;
    }
  }

  /**
   A thread that is not running, new or switched out, has its level high and owes exactly the
   release of the run-queue lock of whichever processor resumes it.
   */
  lemma SwitchedOut(states: seq<Sys>, acts: seq<(nat, Action)>, n: nat, t: Thread)
    requires Run(states, acts) && n <= |acts| && t in states[n].threads && !Current(states[n], t)
    ensures states[n].threads[t].high && states[n].threads[t].count == 2
  {
    hide Step, Init, LocksOk, CpuOk;
    RunOk(states, acts, n);
    assert Waiting(states[n].threads[t]);
  }

  /**
   The assertions on interrupt entry and exit hold at every point of every run: a low level
   means a zero count when an interrupt comes; and a handler that gave back its spinlocks
   leaves the level high and the count at one.
   */
  lemma InterruptAssertions(states: seq<Sys>, acts: seq<(nat, Action)>, n: nat, c: nat)
    requires Run(states, acts) && n <= |acts| && c < |states[n].cpus|
    ensures var cpu := states[n].cpus[c];
            && cpu.cur in states[n].threads
            && var th := states[n].threads[cpu.cur];
               && (cpu.irq && !th.high ==> th.count == 0)
               && (cpu.spinlocks == 0 && cpu.busy.NotBusy? && |th.frames| > 0 ==> th.high && th.count == 1)
  {
    hide Step, Init, LocksOk;
    RunOk(states, acts, n);
    var cpu := states[n].cpus[c];
    assert CpuOk(cpu, states[n].threads[cpu.cur]);
  }

  /**
   At every point of every run a spinlock is held by at most one processor, and splk_holder names
   a processor exactly while that processor holds the lock.
   */
  lemma SpinlockExclusion(states: seq<Sys>, acts: seq<(nat, Action)>, n: nat, c: nat, d: nat, l: Lock)
    requires Run(states, acts) && n <= |acts| && c < |states[n].cpus| && d < |states[n].cpus|
    ensures var s := states[n];
            && (Owns(s.cpus[c], l) && Owns(s.cpus[d], l) ==> c == d)
            && (l in s.cpus[c].held <==> l in s.holder && s.holder[l] == Some(c))
  {
    hide Step, Init, ThreadsOk;
    RunOk(states, acts, n);
    var s := states[n];
    assert Owns(s.cpus[c], l) <==> l in s.taker && s.taker[l] == Some(c);
    assert Owns(s.cpus[d], l) <==> l in s.taker && s.taker[l] == Some(d);
  }

  // ---------------------------------------------------------------- whole calls

  // What a step does to the locks processor c holds and to the call it is inside of.
  predicate CallEffect(s: Sys, s': Sys, d: nat, a: Action, c: nat) {
    |s'.cpus| == |s.cpus| && (c < |s.cpus| ==>
      var cpu, cpu' := s.cpus[c], s'.cpus[c];
      if d != c then cpu'.held == cpu.held && cpu'.busy == cpu.busy
      else match a
           case AcquireStart(l) => cpu'.held == cpu.held && cpu'.busy == Spinning(l)
           case AcquireGet => cpu.busy.Spinning? && cpu'.held == cpu.held && cpu'.busy == Got(cpu.busy.l)
           case AcquireDone => cpu.busy.Got? && cpu'.held == cpu.held + {cpu.busy.l} && cpu'.busy == NotBusy
           case ReleaseHolder(l) => cpu'.held == cpu.held - {l} && cpu'.busy == Releasing(l)
           case ReleaseWord => cpu.busy.Releasing? && cpu'.held == cpu.held && cpu'.busy == NotBusy
           case _ => cpu'.held == cpu.held && cpu'.busy == cpu.busy)
  }

  lemma StepCalls(s: Sys, s': Sys, d: nat, a: Action, c: nat)
    requires Step(s, s', d, a)
    ensures CallEffect(s, s', d, a, c)
  {
    hide LevelStep, LockStep, SwitchStep;
    if LevelStep(s, s', d, a) {
      LevelCalls(s, s', d, a, c);
    } else if LockStep(s, s', d, a) {
      LockCalls(s, s', d, a, c);
    } else {
      SwitchCalls(s, s', d, a, c);
    }
  }

  lemma LevelCalls(s: Sys, s': Sys, d: nat, a: Action, c: nat)
    requires d < |s.cpus| && s.cpus[d].cur in s.threads && LevelStep(s, s', d, a)
    ensures CallEffect(s, s', d, a, c)
  {}

  lemma LockCalls(s: Sys, s': Sys, d: nat, a: Action, c: nat)
    requires d < |s.cpus| && s.cpus[d].cur in s.threads && LockStep(s, s', d, a)
    ensures CallEffect(s, s', d, a, c)
  {}

  lemma SwitchCalls(s: Sys, s': Sys, d: nat, a: Action, c: nat)
    requires d < |s.cpus| && s.cpus[d].cur in s.threads && SwitchStep(s, s', d, a)
    ensures CallEffect(s, s', d, a, c)
  {}

  // Step i begins a call of processor c, and c is not through with it before step n.
  predicate Inside(acts: seq<(nat, Action)>, c: nat, a: Action, end: Action, i: nat, n: nat) {
    i < n <= |acts| && acts[i] == (c, a) && forall j | i < j < n :: acts[j] != (c, end)
  }

  lemma {:induction false} InAcquire(states: seq<Sys>, acts: seq<(nat, Action)>, c: nat, l: Lock, i: nat, n: nat)
    requires Run(states, acts) && Inside(acts, c, AcquireStart(l), AcquireDone, i, n)
    ensures |states[n].cpus| == |states[i].cpus| && c < |states[n].cpus| && l !in states[i].cpus[c].held
    ensures var cpu := states[n].cpus[c];
            cpu.held == states[i].cpus[c].held && (cpu.busy == Spinning(l) || cpu.busy == Got(l))
  {
    hide Init, Step;
    var (d, a) := acts[n - 1];
    StepCalls(states[n - 1], states[n], d, a, c);
    if n == i + 1 {
      StartsFree(states, acts, c, l, i);
    } else {
      InAcquire(states, acts, c, l, i, n - 1);
      if d == c {
        BusyAllows(states[n - 1], states[n], c, a);
      }
    }
  }

  lemma StartsFree(states: seq<Sys>, acts: seq<(nat, Action)>, c: nat, l: Lock, i: nat)
    requires Run(states, acts) && i < |acts| && acts[i] == (c, AcquireStart(l))
    ensures c < |states[i].cpus| && l !in states[i].cpus[c].held
  {
    var s := states[i];
    assert Step(s, states[i + 1], acts[i].0, acts[i].1);
    assert l in s.holder && s.holder[l] != Some(c);
    hide Step, Init, ThreadsOk;
    RunOk(states, acts, i);
    assert l in s.cpus[c].held <==> l in s.holder && s.holder[l] == Some(c);
  }

  // A processor inside a call of one kind begins none and ends none of another.
  lemma BusyAllows(s: Sys, s': Sys, c: nat, a: Action)
    requires Step(s, s', c, a) && !s.cpus[c].busy.NotBusy?
    ensures !a.AcquireStart? && !a.ReleaseHolder?
  {}

  /**
   Over every run: between the start and the end of spinlock_acquire the processor's locks do not
   change, whatever the others do; when it returns, the processor holds the lock it asked for as
   well, which was not its own before, and the lock's word and holder say so.
   */
  lemma AcquireHolds(states: seq<Sys>, acts: seq<(nat, Action)>, c: nat, l: Lock, i: nat, n: nat)
    requires Run(states, acts) && Inside(acts, c, AcquireStart(l), AcquireDone, i, n)
    requires n < |acts| && acts[n] == (c, AcquireDone)
    ensures c < |states[i].cpus| == |states[n + 1].cpus| && l !in states[i].cpus[c].held
    ensures states[n + 1].cpus[c].held == states[i].cpus[c].held + {l}
    ensures var s := states[n + 1]; l in s.taker && l in s.holder && s.taker[l] == s.holder[l] == Some(c)
  {
    hide Step, Init, ThreadsOk, CallEffect;
    InAcquire(states, acts, c, l, i, n);
    StepCalls(states[n], states[n + 1], c, AcquireDone, c);
    RunOk(states, acts, n + 1);
    hide Inside, Run;
    HeldAfter(states[n], states[n + 1], c, l);
  }

  lemma HeldAfter(s: Sys, s': Sys, c: nat, l: Lock)
    requires c < |s.cpus| && CallEffect(s, s', c, AcquireDone, c) && LocksOk(s')
    requires s.cpus[c].busy == Spinning(l) || s.cpus[c].busy == Got(l)
    ensures |s'.cpus| == |s.cpus| && s'.cpus[c].held == s.cpus[c].held + {l}
    ensures l in s'.taker && l in s'.holder && s'.taker[l] == s'.holder[l] == Some(c)
  {
    assert l in s'.cpus[c].held <==> l in s'.holder && s'.holder[l] == Some(c);
    assert Owns(s'.cpus[c], l) <==> l in s'.taker && s'.taker[l] == Some(c);
  }

  lemma {:induction false} InRelease(states: seq<Sys>, acts: seq<(nat, Action)>, c: nat, l: Lock, i: nat, n: nat)
    requires Run(states, acts) && Inside(acts, c, ReleaseHolder(l), ReleaseWord, i, n)
    ensures |states[n].cpus| == |states[i].cpus| && c < |states[n].cpus|
    ensures states[n].cpus[c].held == states[i].cpus[c].held - {l} && states[n].cpus[c].busy == Releasing(l)
  {
    hide Init, Step;
    var (d, a) := acts[n - 1];
    StepCalls(states[n - 1], states[n], d, a, c);
    if n == i + 1 {
      Acts(states, acts, i);
    } else {
      InRelease(states, acts, c, l, i, n - 1);
      if d == c {
        BusyAllows(states[n - 1], states[n], c, a);
      }
    }
  }

  lemma Acts(states: seq<Sys>, acts: seq<(nat, Action)>, n: nat)
    requires Run(states, acts) && n < |acts|
    ensures acts[n].0 < |states[n].cpus| && Step(states[n], states[n + 1], acts[n].0, acts[n].1)
  {
    hide LevelStep, LockStep, SwitchStep, Init;
    assert Step(states[n], states[n + 1], acts[n].0, acts[n].1);
  }

  /**
   Over every run: spinlock_release gives up the lock it was called for and no other; the lock's
   word stays taken until the last step of the call, so no one else can have it, and is free after.
   */
  lemma ReleaseFrees(states: seq<Sys>, acts: seq<(nat, Action)>, c: nat, l: Lock, i: nat, n: nat)
    requires Run(states, acts) && Inside(acts, c, ReleaseHolder(l), ReleaseWord, i, n)
    requires n < |acts| && acts[n] == (c, ReleaseWord)
    ensures c < |states[i].cpus| == |states[n + 1].cpus|
    ensures states[n + 1].cpus[c].held == states[i].cpus[c].held - {l}
    ensures l in states[n].taker && states[n].taker[l] == Some(c)
    ensures l in states[n + 1].taker && states[n + 1].taker[l] == None
  {
    hide Step, Init, ThreadsOk, CallEffect;
    InRelease(states, acts, c, l, i, n);
    StepCalls(states[n], states[n + 1], c, ReleaseWord, c);
    RunOk(states, acts, n);
    Acts(states, acts, n);
    hide Inside, Run;
    FreeAfter(states[n], states[n + 1], c, l);
  }

  lemma FreeAfter(s: Sys, s': Sys, c: nat, l: Lock)
    requires LocksOk(s) && Step(s, s', c, ReleaseWord) && CallEffect(s, s', c, ReleaseWord, c)
    requires c < |s.cpus| && s.cpus[c].busy == Releasing(l)
    ensures |s'.cpus| == |s.cpus| && s'.cpus[c].held == s.cpus[c].held
    ensures l in s.taker && s.taker[l] == Some(c) && l in s'.taker && s'.taker[l] == None
  {
    assert Owns(s.cpus[c], l) <==> l in s.taker && s.taker[l] == Some(c);
  }
}
