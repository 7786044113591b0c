/**
 thread_consider_migration against the queue lengths it counted: how many threads it takes from
 its own processor, and how full it makes another one, whatever happens between its steps.
 */
module LoadBalance {
  import opened Basics
  import opened Bits
  import opened Scheduler
  import RunQueues

  /**
   What processor c's migration has done so far, told by the run: how many queues it has counted,
   the sum of their lengths when it counted them, its own length then, how many threads it has
   taken off its queue, and how many of those it has dealt with.
   */
  datatype Tally = Tally(counted: nat, total: nat, mine: nat, taken: nat, sent: nat)

  function Noted(t: Tally, s: Sys, c: nat, act: (nat, Action)): Tally {
    if act == (c, Count) && t.counted < |s.cpus| then
      var len := |s.cpus[t.counted].runq|;
      Tally(t.counted + 1, t.total + len, if t.counted == c then len else t.mine, t.taken, t.sent)
    else if act == (c, TakeOne) then t.(taken := t.taken + 1)
    else if act == (c, SendOne) then t.(sent := t.sent + 1)
    else t
  }

  // The tally at point n of the migration that starts with step i.
  function TallyAt(states: seq<Sys>, acts: seq<(nat, Action)>, c: nat, i: nat, n: nat): Tally
    requires i < n <= |acts| < |states|
    decreases n
  {
    if n == i + 1 then Tally(0, 0, 0, 0, 0)
    else Noted(TallyAt(states, acts, c, i, n - 1), states[n - 1], c, acts[n - 1])
  }

  // Step i starts a migration on processor c, and no other starts there before step n.
  predicate Since(acts: seq<(nat, Action)>, c: nat, i: nat, n: nat) {
    i < n <= |acts| && acts[i] == (c, Start) && forall j | i < j < n :: acts[j] != (c, Start)
  }

  // k is total shared out among n and rounded up: the least k with k * n >= total.
  predicate OneShare(k: nat, total: nat, n: nat) {
    k * n >= total && (k > 0 ==> (k - 1) * n < total)
  }

  lemma ShareIs(total: nat, n: nat)
    requires n > 0
    ensures OneShare((total + n - 1) / n, total, n)
  {
    var k := (total + n - 1) / n;
    DivMod(total + n - 1, n);
    MulDist(k - 1, 1, n);
  }

  lemma OnlyShare(k: nat, k': nat, total: nat, n: nat)
    requires n > 0 && OneShare(k, total, n) && OneShare(k', total, n)
    ensures k == k'
  {
    if k < k' {
      MulMono(k, k' - 1, n);
    } else if k' < k {
      MulMono(k', k - 1, n);
    }
  }

  // The migration's own variables say what the tally says.
  ghost predicate Agrees(mig: Migration, t: Tally, c: nat, n: nat) {
    match mig
    case Counting(i, total, mine) =>
      t.counted == i && t.total == total && t.mine == mine && t.taken == t.sent == 0
    case Taking(quota, chosen, left) =>
      && t.counted == n && OneShare(quota, t.total, n) && quota + chosen == t.mine && t.taken + left == chosen
      && t.sent == 0
    case Sending(share, toSend, _, _) =>
      t.counted == n && OneShare(share, t.total, n) && share + t.taken == t.mine && t.sent + toSend == t.taken
    case PutBack(_) => Ended(t, n)
    case NoMigration => Ended(t, n)
  }

  // All queues were counted, and the surplus over one share was taken, if there was one.
  ghost predicate Ended(t: Tally, n: nat) {
    && t.counted == n
    && forall k: nat | OneShare(k, t.total, n) :: if t.mine < k then t.taken == 0 else k + t.taken == t.mine
  }

  lemma TakingStep(s: Sys, s': Sys, c: nat, a: Action, t: Tally)
    requires c < |s.cpus| && TakeStep(s, s', c, a) && !a.Start? && Agrees(s.cpus[c].mig, t, c, |s.cpus|)
    ensures Agrees(s'.cpus[c].mig, Noted(t, s, c, (c, a)), c, |s.cpus|)
  {
    var n := |s.cpus|;
    if a.Decide? {
      var total := s.cpus[c].mig.total;
      ShareIs(total, n);
      forall k: nat | OneShare(k, total, n)
        ensures k == (total + n - 1) / n
      {
        OnlyShare(k, (total + n - 1) / n, total, n);
      }
      hide OneShare;
    } else {
      hide OneShare;
    }
  }

  lemma SendingStep(s: Sys, s': Sys, c: nat, a: Action, t: Tally)
    requires c < |s.cpus| && SendStep(s, s', c, a) && Agrees(s.cpus[c].mig, t, c, |s.cpus|)
    ensures Agrees(s'.cpus[c].mig, Noted(t, s, c, (c, a)), c, |s.cpus|)
  {
    var n := |s.cpus|;
    if a.SendDone? {
      var share := s.cpus[c].mig.share;
      forall k: nat | OneShare(k, t.total, n)
        ensures k == share
      {
        OnlyShare(k, share, t.total, n);
      }
    }
    hide OneShare;
  }

  lemma AgreesStep(s: Sys, s': Sys, d: nat, a: Action, c: nat, t: Tally)
    requires Step(s, s', d, a) && c < |s.cpus| && (d, a) != (c, Start) && Agrees(s.cpus[c].mig, t, c, |s.cpus|)
    ensures |s'.cpus| == |s.cpus| && Agrees(s'.cpus[c].mig, Noted(t, s, c, (d, a)), c, |s.cpus|)
  {
    hide Agrees, LeaveStep, SwitchStep, WakeStep, TakeStep, SendStep;
    RunQueues.StepEffect(s, s', d, a, c, 0, 0);
    if d == c && Migrating(a) {
      NotOthers(s, s', c, a);
      if TakeStep(s, s', c, a) {
        TakingStep(s, s', c, a, t);
      } else {
        SendingStep(s, s', c, a, t);
      }
    }
  }

  lemma {:induction false} TallyAgrees(states: seq<Sys>, acts: seq<(nat, Action)>, c: nat, i: nat, n: nat)
    requires Run(states, acts) && Since(acts, c, i, n)
    ensures |states[n].cpus| == |states[i].cpus| && c < |states[n].cpus|
    ensures Agrees(states[n].cpus[c].mig, TallyAt(states, acts, c, i, n), c, |states[n].cpus|)
  {
    hide Init, Agrees, Step;
    if n == i + 1 {
      assert Step(states[i], states[n], acts[i].0, acts[i].1);
      StartAgrees(states[i], states[n], c);
    } else {
      TallyAgrees(states, acts, c, i, n - 1);
      AgreesStep(states[n - 1], states[n], acts[n - 1].0, acts[n - 1].1, c, TallyAt(states, acts, c, i, n - 1));
    }
  }

  lemma StartAgrees(s: Sys, s': Sys, c: nat)
    requires Step(s, s', c, Start)
    ensures c < |s.cpus| == |s'.cpus| && Agrees(s'.cpus[c].mig, Tally(0, 0, 0, 0, 0), c, |s.cpus|)
  {}

  /**
   Over every run: a migration takes off its own queue exactly what exceeded one share of the
   lengths it had counted, one share being the least number that, taken once for each processor,
   covers them all; and nothing when it had no more than that. At no point has it taken more.
   */
  lemma TakesSurplus(states: seq<Sys>, acts: seq<(nat, Action)>, c: nat, i: nat, n: nat, k: nat)
    requires Run(states, acts) && Since(acts, c, i, n) && c < |states[n].cpus|
    requires OneShare(k, TallyAt(states, acts, c, i, n).total, |states[n].cpus|)
    ensures var t := TallyAt(states, acts, c, i, n);
            && t.counted <= |states[n].cpus|
            && (t.taken > 0 ==> t.counted == |states[n].cpus| && k + t.taken <= t.mine)
            && (acts[n - 1] == (c, TakeDone) ==> t.counted == |states[n].cpus| && k + t.taken == t.mine)
            && (states[n].cpus[c].mig.NoMigration? ==>
                  t.counted == |states[n].cpus| && t.taken == if t.mine < k then 0 else t.mine - k)
  {
    RunOk(states, acts, n);
    assert CpuOk(states[n].cpus[c], c, |states[n].cpus|);
    hide SysOk, Step, Init;
    TallyAgrees(states, acts, c, i, n);
    var t, m := TallyAt(states, acts, c, i, n), |states[n].cpus|;
    var mig := states[n].cpus[c].mig;
    if acts[n - 1] == (c, TakeDone) {
      TakeDoneSends(states, acts, c, n);
    }
    if mig.Taking? {
      OnlyShare(k, mig.quota, t.total, m);
    } else if mig.Sending? {
      OnlyShare(k, mig.share, t.total, m);
    }
    hide OneShare;
  }

  lemma TakeDoneSends(states: seq<Sys>, acts: seq<(nat, Action)>, c: nat, n: nat)
    requires Run(states, acts) && 0 < n <= |acts| && acts[n - 1] == (c, TakeDone)
    ensures c < |states[n].cpus| && states[n].cpus[c].mig.Sending?
  {
    assert Step(states[n - 1], states[n], acts[n - 1].0, acts[n - 1].1);
  }

  /**
   Over every run: whatever processor's queue a migration makes longer, it leaves with no more
   than one share of what it had counted: with one thread less, that many on each processor would
   not have covered it. It makes no queue longer but another processor's, and that by one thread.
   */
  lemma FillsToShare(states: seq<Sys>, acts: seq<(nat, Action)>, c: nat, i: nat, n: nat, d: nat)
    requires Run(states, acts) && Since(acts, c, i, n) && n < |acts| && acts[n] == (c, SendOne)
    requires d < |states[n].cpus| == |states[n + 1].cpus|
    requires |states[n + 1].cpus[d].runq| > |states[n].cpus[d].runq|
    ensures d != c && |states[n + 1].cpus[d].runq| == |states[n].cpus[d].runq| + 1
    ensures (|states[n + 1].cpus[d].runq| - 1) * |states[n].cpus| < TallyAt(states, acts, c, i, n).total
    ensures TallyAt(states, acts, c, i, n).counted == |states[n].cpus|
  {
    hide Init, Step, SendStep, OneShare, TallyAt;
    var s, s' := states[n], states[n + 1];
    SendingOne(states, acts, c, n);
    SendGrows(s, s', c, d);
    TallyAgrees(states, acts, c, i, n);
    hide Run, Since;
    BelowShare(|s'.cpus[d].runq|, s.cpus[c].mig.share, TallyAt(states, acts, c, i, n).total, |s.cpus|);
  }

  lemma SendingOne(states: seq<Sys>, acts: seq<(nat, Action)>, c: nat, n: nat)
    requires Run(states, acts) && n < |acts| && acts[n] == (c, SendOne)
    ensures c < |states[n].cpus| && SendStep(states[n], states[n + 1], c, SendOne)
  {
    hide LeaveStep, SwitchStep, WakeStep, TakeStep, SendStep;
    assert Step(states[n], states[n + 1], acts[n].0, acts[n].1);
    hide Run;
    OnlySends(states[n], states[n + 1], c);
  }

  lemma SendGrows(s: Sys, s': Sys, c: nat, d: nat)
    requires c < |s.cpus| && SendStep(s, s', c, SendOne)
    requires d < |s.cpus| == |s'.cpus| && |s'.cpus[d].runq| > |s.cpus[d].runq|
    ensures s.cpus[c].mig.Sending? && d != c
    ensures |s'.cpus[d].runq| == |s.cpus[d].runq| + 1 && |s'.cpus[d].runq| <= s.cpus[c].mig.share
  {}

  lemma BelowShare(len: nat, share: nat, total: nat, n: nat)
    requires 0 < len <= share && OneShare(share, total, n)
    ensures (len - 1) * n < total
  {
    MulMono(len - 1, share - 1, n);
  }

  // ---------------------------------------------------------------- every processor gets its offer

  // Between i and n processor c has had d's queue locked and let go of it with at least k threads on it.
  ghost predicate Served(states: seq<Sys>, acts: seq<(nat, Action)>, c: nat, d: nat, k: nat, i: nat, n: nat)
    requires n <= |acts| < |states|
  {
    exists j | i < j < n :: acts[j] == (c, UnlockTarget) && FullAt(states[j], c, d, k)
  }

  predicate FullAt(s: Sys, c: nat, d: nat, k: nat) {
    d < |s.cpus| && s.cpus[d].lock == Some(c) && |s.cpus[d].runq| >= k
  }

  // While c sends: every processor it is past has had its fill, or there is nothing more to send.
  ghost predicate Offered(states: seq<Sys>, acts: seq<(nat, Action)>, c: nat, i: nat, n: nat)
    requires n <= |acts| < |states| && c < |states[n].cpus|
  {
    var mig := states[n].cpus[c].mig;
    mig.Sending? && mig.toSend > 0 ==>
      forall d: nat | d < mig.i && d != c :: Served(states, acts, c, d, mig.share, i, n)
  }

  lemma ServedLater(states: seq<Sys>, acts: seq<(nat, Action)>, c: nat, d: nat, k: nat, i: nat, n: nat)
    requires 0 < n <= |acts| < |states|
    ensures Served(states, acts, c, d, k, i, n - 1) ==> Served(states, acts, c, d, k, i, n)
    ensures i < n - 1 && acts[n - 1] == (c, UnlockTarget) && FullAt(states[n - 1], c, d, k) ==>
              Served(states, acts, c, d, k, i, n)
  {}

  // One step of a migration that is sending, or has just begun to.
  predicate OfferMove(s: Sys, s': Sys, c: nat, a: Action)
    requires c < |s.cpus| == |s'.cpus|
  {
    var mig, mig' := s.cpus[c].mig, s'.cpus[c].mig;
    mig'.Sending? && mig'.toSend > 0 ==>
      || mig'.i == 0
      || (mig.Sending? && mig.toSend > 0 && mig'.share == mig.share
          && (mig'.i == mig.i
              || (mig'.i == mig.i + 1 && (mig.i == c || (a == UnlockTarget && FullAt(s, c, mig.i, mig.share))))))
  }

  lemma TakeOffers(s: Sys, s': Sys, c: nat, a: Action)
    requires c < |s.cpus| == |s'.cpus| && TakeStep(s, s', c, a)
    ensures OfferMove(s, s', c, a)
  {}

  lemma SendOffers(s: Sys, s': Sys, c: nat, a: Action)
    requires c < |s.cpus| == |s'.cpus| && SendStep(s, s', c, a) && TargetOk(s, c, s.cpus[c].mig)
    ensures OfferMove(s, s', c, a)
  {}

  lemma StepOffers(s: Sys, s': Sys, d: nat, a: Action, c: nat)
    requires Step(s, s', d, a) && c < |s.cpus| == |s'.cpus| && TargetOk(s, c, s.cpus[c].mig)
    ensures if d == c && Migrating(a) then OfferMove(s, s', c, a) else s'.cpus[c].mig == s.cpus[c].mig
  {
    hide LeaveStep, SwitchStep, WakeStep, TakeStep, SendStep, OfferMove, TargetOk;
    RunQueues.StepEffect(s, s', d, a, c, 0, 0);
    if d == c && Migrating(a) {
      NotOthers(s, s', c, a);
      if TakeStep(s, s', c, a) {
        TakeOffers(s, s', c, a);
      } else {
        SendOffers(s, s', c, a);
      }
    }
  }

  lemma {:induction false} OfferedSince(states: seq<Sys>, acts: seq<(nat, Action)>, c: nat, i: nat, n: nat)
    requires Run(states, acts) && Since(acts, c, i, n)
    ensures c < |states[n].cpus| && Offered(states, acts, c, i, n)
  {
    hide Init, Step, SysOk, Agrees;
    TallyAgrees(states, acts, c, i, n);
    if n == i + 1 {
      assert Step(states[i], states[n], acts[i].0, acts[i].1);
      StartCounts(states[i], states[n], c);
    } else {
      TallyAgrees(states, acts, c, i, n - 1);
      OfferedSince(states, acts, c, i, n - 1);
      RunOk(states, acts, n - 1);
      TargetLocked(states[n - 1], c);
      StepOffers(states[n - 1], states[n], acts[n - 1].0, acts[n - 1].1, c);
      var mig := states[n].cpus[c].mig;
      if mig.Sending? && mig.toSend > 0 {
        hide Run, Since, Served, FullAt;
        forall d: nat | d < mig.i && d != c
          ensures Served(states, acts, c, d, mig.share, i, n)
        {
          ServedLater(states, acts, c, d, mig.share, i, n);
        }
      }
    }
  }

  lemma StartCounts(s: Sys, s': Sys, c: nat)
    requires Step(s, s', c, Start)
    ensures c < |s'.cpus| && s'.cpus[c].mig.Counting?
  {}

  lemma TargetLocked(s: Sys, c: nat)
    requires SysOk(s) && c < |s.cpus|
    ensures TargetOk(s, c, s.cpus[c].mig)
  {
    hide PlacesOk, ThreadsOk, TargetOk, CpuOk;
  }

  /**
   Over every run: if a migration stops sending with threads left that it took and has not dealt
   with, it has had every other processor's queue locked, and left none with less than one share
   of what it had counted.
   */
  lemma OffersAll(states: seq<Sys>, acts: seq<(nat, Action)>, c: nat, i: nat, n: nat, d: nat) returns (j: nat)
    requires Run(states, acts) && Since(acts, c, i, n) && n < |acts| && acts[n] == (c, SendDone)
    requires TallyAt(states, acts, c, i, n).sent < TallyAt(states, acts, c, i, n).taken
    requires d < |states[n].cpus| && d != c
    ensures i < j < n && acts[j] == (c, UnlockTarget) && d < |states[j].cpus| && states[j].cpus[d].lock == Some(c)
    ensures |states[j].cpus[d].runq| * |states[n].cpus| >= TallyAt(states, acts, c, i, n).total
  {
    hide Init, Step, OneShare;
    TallyAgrees(states, acts, c, i, n);
    OfferedSince(states, acts, c, i, n);
    assert Step(states[n], states[n + 1], acts[n].0, acts[n].1);
    var t, mig := TallyAt(states, acts, c, i, n), states[n].cpus[c].mig;
    hide TallyAt, Run;
    AllPassed(states[n], states[n + 1], c);
    assert Served(states, acts, c, d, mig.share, i, n);
    j :| i < j < n && acts[j] == (c, UnlockTarget) && FullAt(states[j], c, d, mig.share);
    AboveShare(|states[j].cpus[d].runq|, mig.share, t.total, |states[n].cpus|);
  }

  lemma AllPassed(s: Sys, s': Sys, c: nat)
    requires Step(s, s', c, SendDone)
    ensures s.cpus[c].mig.Sending? && (s.cpus[c].mig.toSend > 0 ==> s.cpus[c].mig.i >= |s.cpus|)
  {}

  lemma AboveShare(len: nat, share: nat, total: nat, n: nat)
    requires len >= share && OneShare(share, total, n)
    ensures len * n >= total
  {
    MulMono(share, len, n);
  }
}
