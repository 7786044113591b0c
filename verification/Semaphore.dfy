/**
 Counting semaphores: P and V by any number of threads, with barging. A step is
 one stretch of code under the semaphore's spinlock.
 */
module Semaphore {
  import opened Basics

  type Thread = nat

  // Outside P; asleep on the channel; or taken off it and not yet back to test the count.
  datatype Phase = Outside | Asleep | Woken

  datatype Sem = Sem(count: nat, queue: seq<Thread>, phase: map<Thread, Phase>)

  const UINT_LIMIT := 0x1_0000_0000

  datatype Action = TryP | Resume | V

  // The body of P's loop, by a thread that has the spinlock: take a unit or go to sleep.
  ghost predicate Attempt(s: Sem, s': Sem, t: Thread) {
    if s.count == 0 then
      s' == s.(queue := s.queue + [t], phase := s.phase[t := Asleep])
    else
      s' == s.(count := s.count - 1, phase := s.phase[t := Outside])
  }

  // V, including wchan_wakeone; its assertion stops a count that would wrap.
  ghost predicate Raise(s: Sem, s': Sem) {
    && s.count + 1 < UINT_LIMIT
    && if |s.queue| == 0 then s' == s.(count := s.count + 1)
       else s' == s.(count := s.count + 1, queue := s.queue[1..], phase := s.phase[s.queue[0] := Woken])
  }

  ghost predicate Step(s: Sem, s': Sem, t: Thread, a: Action) {
    && t in s.phase
    && match a
       case TryP => s.phase[t].Outside? && Attempt(s, s', t)
       case Resume => s.phase[t].Woken? && Attempt(s, s', t)
       case V => s.phase[t].Outside? && Raise(s, s')
  }

  function Wakened(s: Sem): set<Thread> {
    set t | t in s.phase && s.phase[t].Woken?
  }

  /**
   The channel holds exactly the sleepers, once each; and while anyone sleeps, at least count
   threads have been woken to claim it.
   */
  ghost predicate SemOk(s: Sem) {
    && (forall t: Thread :: t in s.queue <==> t in s.phase && s.phase[t].Asleep?)
    && Distinct(s.queue)
    && (|s.queue| > 0 ==> |Wakened(s)| >= s.count)
  }

  lemma AttemptKeeps(s: Sem, s': Sem, t: Thread)
    requires SemOk(s) && t in s.phase && !s.phase[t].Asleep? && Attempt(s, s', t)
    ensures SemOk(s')
  {
    assert t !in s.queue;
    assert Wakened(s') == Wakened(s) - {t};
    assert |Wakened(s')| >= |Wakened(s)| - 1;
  }

  lemma RaiseKeeps(s: Sem, s': Sem)
    requires SemOk(s) && Raise(s, s')
    ensures SemOk(s')
  {
    if |s.queue| > 0 {
      var t := s.queue[0];
      assert t in s.queue;
      assert s.queue == [t] + s.queue[1..];
      assert t !in s.queue[1..];
      assert Wakened(s') == Wakened(s) + {t} && t !in Wakened(s);
    }
  }

  lemma StepKeeps(s: Sem, s': Sem, t: Thread, a: Action)
    requires SemOk(s) && Step(s, s', t, a)
    ensures SemOk(s')
  {
    hide SemOk, Attempt, Raise;
    match a
    case V => RaiseKeeps(s, s');
    case _ => AttemptKeeps(s, s', t);
  }

  // Made by sem_create with some count, nobody in P yet.
  predicate Init(s: Sem) {
    s.queue == [] && forall t: Thread | t in s.phase :: s.phase[t].Outside?
  }

  ghost predicate Run(states: seq<Sem>, acts: seq<(Thread, Action)>) {
    && |states| == |acts| + 1 && Init(states[0])
    && forall i | 0 <= i < |acts| :: Step(states[i], states[i + 1], acts[i].0, acts[i].1)
  }

  lemma {:induction false} RunOk(states: seq<Sem>, acts: seq<(Thread, Action)>, n: nat)
    requires Run(states, acts) && n <= |acts|
    ensures SemOk(states[n])
  {
    if n > 0 {
      RunOk(states, acts, n - 1);
      StepKeeps(states[n - 1], states[n], acts[n - 1].0, acts[n - 1].1);
    }
  }

  // ---------------------------------------------------------------- what P and V come to

  // The Vs among the first n steps.
  function Raised(acts: seq<(Thread, Action)>, n: nat): nat
    requires n <= |acts|
  {
    if n == 0 then 0 else Raised(acts, n - 1) + if acts[n - 1].1.V? then 1 else 0
  }

  // Step i is the one with which P returns: its thread tested the count and is out again.
  predicate Returns(states: seq<Sem>, acts: seq<(Thread, Action)>, i: nat)
    requires i < |acts| < |states|
  {
    var (t, a) := acts[i];
    !a.V? && t in states[i + 1].phase && states[i + 1].phase[t].Outside?
  }

  // The Ps that have returned within the first n steps.
  function Passed(states: seq<Sem>, acts: seq<(Thread, Action)>, n: nat): nat
    requires n <= |acts| < |states|
  {
    if n == 0 then 0 else Passed(states, acts, n - 1) + if Returns(states, acts, n - 1) then 1 else 0
  }

  lemma {:induction false} CountIs(states: seq<Sem>, acts: seq<(Thread, Action)>, n: nat)
    requires Run(states, acts) && n <= |acts|
    ensures states[n].count + Passed(states, acts, n) == states[0].count + Raised(acts, n)
  {
    if n > 0 {
      CountIs(states, acts, n - 1);
      assert Step(states[n - 1], states[n], acts[n - 1].0, acts[n - 1].1);
    }
  }

  /**
   At every point of every run the count is the initial value plus the Vs so far minus the Ps that
   have returned, so more Ps than that never return; and no wakeup is lost: if a thread sleeps
   while units are available, then at least that many threads are awake and on their way.
   */
  lemma Conservation(states: seq<Sem>, acts: seq<(Thread, Action)>, n: nat)
    requires Run(states, acts) && n <= |acts|
    ensures states[n].count == states[0].count + Raised(acts, n) - Passed(states, acts, n)
    ensures Passed(states, acts, n) <= states[0].count + Raised(acts, n)
    ensures var s := states[n];
            (exists t: Thread :: t in s.phase && s.phase[t].Asleep?) ==> |Wakened(s)| >= s.count
  {
    CountIs(states, acts, n);
    RunOk(states, acts, n);
    var s := states[n];
    if t: Thread :| t in s.phase && s.phase[t].Asleep? {
      assert t in s.queue;
    }
  }

  /**
   In every run, a thread in P returns exactly when it finds a unit and otherwise goes to sleep at
   the back of the queue; a V wakes exactly the thread that has been queued longest, if any; and no
   other thread notices.
   */
  lemma PassesIff(states: seq<Sem>, acts: seq<(Thread, Action)>, i: nat, u: Thread)
    requires Run(states, acts) && i < |acts| && u in states[i].phase
    ensures var (t, a) := acts[i]; var s, s' := states[i], states[i + 1];
            && u in s'.phase && t in s'.phase
            && (!a.V? ==> (Returns(states, acts, i) <==> s.count > 0) && (s'.phase[t].Asleep? <==> s.count == 0))
            && (!a.V? ==> s'.queue == if s.count > 0 then s.queue else s.queue + [t])
            && (a.V? ==> s'.phase[t].Outside?)
            && (a.V? ==> s'.queue == if |s.queue| == 0 then [] else s.queue[1..])
            && (u != t && !(a.V? && |s.queue| > 0 && u == s.queue[0]) ==> s'.phase[u] == s.phase[u])
            && (a.V? && |s.queue| > 0 && u == s.queue[0] ==> s'.phase[u].Woken?)
  {
    RunOk(states, acts, i);
    var s := states[i];
    assert Step(s, states[i + 1], acts[i].0, acts[i].1);
    assert |s.queue| > 0 ==> s.queue[0] in s.queue;
  }
}
