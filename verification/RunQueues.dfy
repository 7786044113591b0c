/**
 The order in which threads run and wake: run queues and wait channels are served first come,
 first served, and a thread stays with its processor unless it is migrated.
 */
module RunQueues {
  import opened Basics
  import opened Scheduler

  // ---------------------------------------------------------------- run queues

  // What action a of processor d can do to run queue c: take its head, take its last, or add one behind.
  predicate QueueEffect(s: Sys, s': Sys, d: nat, a: Action, c: nat) {
    && |s'.cpus| == |s.cpus|
    && (c < |s.cpus| ==>
          var q, q' := s.cpus[c].runq, s'.cpus[c].runq;
          if (d, a) == (c, Pick) then |q| > 0 && q' == q[1..] && s'.cpus[c].cur == q[0]
          else if (d, a) == (c, TakeOne) then |q| > 0 && q' == q[..|q| - 1]
          else q <= q' && |q'| <= |q| + 1)
    && (c < |s.cpus| && !(d == c && Migrating(a)) ==> s'.cpus[c].mig == s.cpus[c].mig)
  }

  // And to wait channel w: add the thread that goes to sleep behind, or take the head.
  predicate ChannelEffect(s: Sys, s': Sys, d: nat, a: Action, w: Channel) {
    w in s.channels ==>
      && d < |s.cpus| && w in s'.channels
      && var q, q' := s.channels[w], s'.channels[w];
         if a == Sleep(w) then q' == q + [s.cpus[d].cur]
         else if a == WakeHead(w) then |q| > 0 && q' == q[1..]
         else q' == q
  }

  // And to the processor of thread t: give a new one the same, or send one elsewhere.
  predicate HomeEffect(s: Sys, s': Sys, d: nat, a: Action, t: Thread) {
    && (t in s.threads && t in s'.threads && s'.threads[t].cpu != s.threads[t].cpu ==>
          a == SendOne && d < |s.cpus| && |s.cpus[d].victims| > 0 && s.cpus[d].victims[0] == t)
    && (t !in s.threads && t in s'.threads ==> a == Fork(t) && s'.threads[t].cpu == d)
  }

  lemma LeaveEffect(s: Sys, s': Sys, d: nat, a: Action, c: nat, w: Channel, t: Thread)
    requires d < |s.cpus| && LeaveStep(s, s', d, a)
    ensures QueueEffect(s, s', d, a, c) && ChannelEffect(s, s', d, a, w) && HomeEffect(s, s', d, a, t)
  {}

  lemma SwitchEffect(s: Sys, s': Sys, d: nat, a: Action, c: nat, w: Channel, t: Thread)
    requires d < |s.cpus| && SwitchStep(s, s', d, a)
    ensures QueueEffect(s, s', d, a, c) && ChannelEffect(s, s', d, a, w) && HomeEffect(s, s', d, a, t)
  {}

  lemma WakeEffect(s: Sys, s': Sys, d: nat, a: Action, c: nat, w: Channel, t: Thread)
    requires d < |s.cpus| && WakeStep(s, s', d, a)
    ensures QueueEffect(s, s', d, a, c) && ChannelEffect(s, s', d, a, w) && HomeEffect(s, s', d, a, t)
  {}

  lemma TakeEffect(s: Sys, s': Sys, d: nat, a: Action, c: nat, w: Channel, t: Thread)
    requires d < |s.cpus| && TakeStep(s, s', d, a)
    ensures QueueEffect(s, s', d, a, c) && ChannelEffect(s, s', d, a, w) && HomeEffect(s, s', d, a, t)
  {}

  lemma SendEffect(s: Sys, s': Sys, d: nat, a: Action, c: nat, w: Channel, t: Thread)
    requires d < |s.cpus| && SendStep(s, s', d, a)
    ensures QueueEffect(s, s', d, a, c) && ChannelEffect(s, s', d, a, w) && HomeEffect(s, s', d, a, t)
  {}

  lemma StepEffect(s: Sys, s': Sys, d: nat, a: Action, c: nat, w: Channel, t: Thread)
    requires Step(s, s', d, a)
    ensures d < |s.cpus|
    ensures QueueEffect(s, s', d, a, c) && ChannelEffect(s, s', d, a, w) && HomeEffect(s, s', d, a, t)
  {
    hide LeaveStep, SwitchStep, WakeStep, TakeStep, SendStep, QueueEffect, ChannelEffect, HomeEffect;
    if LeaveStep(s, s', d, a) {
      LeaveEffect(s, s', d, a, c, w, t);
    } else if SwitchStep(s, s', d, a) {
      SwitchEffect(s, s', d, a, c, w, t);
    } else if WakeStep(s, s', d, a) {
      WakeEffect(s, s', d, a, c, w, t);
    } else if TakeStep(s, s', d, a) {
      TakeEffect(s, s', d, a, c, w, t);
    } else {
      SendEffect(s, s', d, a, c, w, t);
    }
  }

  lemma RunEffect(states: seq<Sys>, acts: seq<(nat, Action)>, n: nat, c: nat, w: Channel, t: Thread)
    requires Run(states, acts) && n < |acts|
    ensures acts[n].0 < |states[n].cpus|
    ensures var (d, a) := acts[n]; var s, s' := states[n], states[n + 1];
            QueueEffect(s, s', d, a, c) && ChannelEffect(s, s', d, a, w) && HomeEffect(s, s', d, a, t)
  {
    hide Step, Init, QueueEffect, ChannelEffect, HomeEffect;
    StepEffect(states[n], states[n + 1], acts[n].0, acts[n].1, c, w, t);
  }

  // How often processor c has picked its next thread between i and n.
  function Picks(acts: seq<(nat, Action)>, c: nat, i: nat, n: nat): nat
    requires i <= n <= |acts|
    decreases n
  {
    if n == i then 0 else Picks(acts, c, i, n - 1) + if acts[n - 1] == (c, Pick) then 1 else 0
  }

  lemma {:induction false} KeepsPlace(states: seq<Sys>, acts: seq<(nat, Action)>, c: nat, i: nat, n: nat, k: nat)
    requires Run(states, acts) && i <= n <= |acts| && c < |states[i].cpus| && k < |states[i].cpus[c].runq|
    requires forall j | i < j <= n :: c < |states[j].cpus| && states[i].cpus[c].runq[k] in states[j].cpus[c].runq
    ensures |states[n].cpus| == |states[i].cpus| && Picks(acts, c, i, n) <= k
    ensures var q, at := states[n].cpus[c].runq, k - Picks(acts, c, i, n);
            at < |q| && q[at] == states[i].cpus[c].runq[k]
  {
    hide Step, Init, SysOk;
    if i < n {
      KeepsPlace(states, acts, c, i, n - 1, k);
      RunEffect(states, acts, n - 1, c, 0, 0);
      Once(states, acts, n - 1, c);
      hide Run, QueueEffect, Distinct;
      OnePlace(states[n - 1], states[n], acts[n - 1].0, acts[n - 1].1, c, k - Picks(acts, c, i, n - 1));
    }
  }

  // A thread that stays on the queue moves up by one when the head is picked, and else keeps its place.
  lemma OnePlace(s: Sys, s': Sys, d: nat, a: Action, c: nat, at: nat)
    requires QueueEffect(s, s', d, a, c) && c < |s.cpus| && Distinct(s.cpus[c].runq)
    requires at < |s.cpus[c].runq| && s.cpus[c].runq[at] in s'.cpus[c].runq
    ensures var at' := if (d, a) == (c, Pick) then at - 1 else at;
            0 <= at' < |s'.cpus[c].runq| && s'.cpus[c].runq[at'] == s.cpus[c].runq[at]
  {
    var q := s.cpus[c].runq;
    if (d, a) == (c, Pick) && at == 0 {
      NotInRest(q);
      assert false;
    } else if (d, a) == (c, TakeOne) && at == |q| - 1 {
      NotInFront(q);
      assert false;
    }
  }

  lemma NotInRest(q: seq<Thread>)
    requires Distinct(q) && |q| > 0
    ensures q[0] !in q[1..]
  {}

  lemma NotInFront(q: seq<Thread>)
    requires Distinct(q) && |q| > 0
    ensures q[|q| - 1] !in q[..|q| - 1]
  {}

  lemma Once(states: seq<Sys>, acts: seq<(nat, Action)>, n: nat, c: nat)
    requires Run(states, acts) && n <= |acts| && c < |states[n].cpus|
    ensures Distinct(states[n].cpus[c].runq)
  {
    hide Step, Init, ThreadsOk, CpusOk;
    RunOk(states, acts, n);
    assert Distinct(List(states[n], Ready(c)));
  }

  /**
   Round robin: in every run, a thread that has k threads in front of it on a run queue, and stays
   on that queue, is run at the next choice of that processor if and only if the processor has made
   exactly k choices since; until then it has one less in front of it for every choice made.
   */
  lemma RoundRobin(states: seq<Sys>, acts: seq<(nat, Action)>, c: nat, i: nat, n: nat, k: nat)
    requires Run(states, acts) && i <= n < |acts| && acts[n] == (c, Pick)
    requires c < |states[i].cpus| && k < |states[i].cpus[c].runq|
    requires forall j | i < j <= n :: c < |states[j].cpus| && states[i].cpus[c].runq[k] in states[j].cpus[c].runq
    ensures |states[n + 1].cpus| == |states[i].cpus| && Picks(acts, c, i, n) <= k
    ensures states[n + 1].cpus[c].cur == states[i].cpus[c].runq[k] <==> Picks(acts, c, i, n) == k
  {
    hide Step, Init;
    KeepsPlace(states, acts, c, i, n, k);
    RunEffect(states, acts, n, c, 0, 0);
    Once(states, acts, n, c);
  }

  // ---------------------------------------------------------------- wait channels and homes

  /**
   In every run a thread goes to sleep behind all the others on its channel, and a wakeup takes off
   exactly the one that has slept longest; nothing else changes a channel.
   */
  lemma ChannelOrder(states: seq<Sys>, acts: seq<(nat, Action)>, n: nat, w: Channel)
    requires Run(states, acts) && n < |acts| && w in states[n].channels
    ensures acts[n].0 < |states[n].cpus| && w in states[n + 1].channels
    ensures var (c, a) := acts[n]; var q, q' := states[n].channels[w], states[n + 1].channels[w];
            if a == Sleep(w) then q' == q + [states[n].cpus[c].cur]
            else if a == WakeHead(w) then |q| > 0 && q' == q[1..]
            else q' == q
  {
    hide Step, Init;
    RunEffect(states, acts, n, 0, w, 0);
  }

  // In every run a new thread belongs to the processor it was forked on.
  lemma BornHere(states: seq<Sys>, acts: seq<(nat, Action)>, n: nat, t: Thread)
    requires Run(states, acts) && n < |acts| && t !in states[n].threads && t in states[n + 1].threads
    ensures acts[n] == (states[n + 1].threads[t].cpu, Fork(t))
  {
    hide Step, Init;
    RunEffect(states, acts, n, 0, 0, t);
  }

  /**
   In every run a thread's processor changes only when that processor migrates it; so a thread that
   is woken or yields runs again where it ran before.
   */
  lemma StaysHome(states: seq<Sys>, acts: seq<(nat, Action)>, n: nat, t: Thread)
    requires Run(states, acts) && n < |acts| && t in states[n].threads && t in states[n + 1].threads
    requires states[n + 1].threads[t].cpu != states[n].threads[t].cpu
    ensures acts[n] == (states[n].threads[t].cpu, SendOne)
    ensures acts[n].0 < |states[n].cpus| && |states[n].cpus[acts[n].0].victims| > 0
    ensures states[n].cpus[acts[n].0].victims[0] == t
  {
    hide Step, Init, CpusOk;
    RunOk(states, acts, n);
    RunEffect(states, acts, n, 0, 0, t);
    var c := acts[n].0;
    assert t in List(states[n], Victim(c));
    At(states[n], Victim(c), t);
    HomeOk(states[n], t);
  }
}
