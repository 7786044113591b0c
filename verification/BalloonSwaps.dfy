/**
 What Lord FlowerKiller's swaps do to the mapping between ropes and stakes, when any number of
 swappers interleave their four assignments.
 */
module BalloonSwaps {
  import opened Balloon

  // The two arrays are inverse to each other: each stake holds one rope and each rope one stake.
  ghost predicate Inverse(s: Sys)
    requires Shape(s)
  {
    (forall k: Rope :: s.stakeOfRope[s.ropeOfStake[k]] == k) && (forall r: Rope :: s.ropeOfStake[s.stakeOfRope[r]] == r)
  }

  // The stakes a swapper read from are two stakes that still hold the two ropes it has locked.
  predicate StillThere(s: Sys, pc: Pc)
    requires Shape(s) && (pc.FHas? || pc.FWriting?)
  {
    && pc.first != pc.second
    && ((s.ropeOfStake[pc.first] == pc.f && s.ropeOfStake[pc.second] == pc.s)
        || (s.ropeOfStake[pc.first] == pc.s && s.ropeOfStake[pc.second] == pc.f))
  }

  predicate Writing(s: Sys, t: Thread) {
    t in s.pc && s.pc[t].FWriting?
  }

  // A swapper looks at its two ropes and goes on to write.
  predicate GoesOn(s: Sys, s': Sys, t: Thread, a: Action) {
    a.Look? && t in s.pc && s.pc[t].FHas? && Writing(s', t)
  }

  // Nobody is between the first and the last of the four assignments.
  ghost predicate Quiet(s: Sys) {
    forall t: Thread :: !Writing(s, t)
  }

  // ---------------------------------------------------------------- while swappers write

  // How far a swapper has got with swapping what its two stakes hold.
  predicate WriterOk(s: Sys, pc: Pc)
    requires Shape(s) && pc.FWriting?
  {
    && pc.first != pc.second && pc.f != pc.s
    && s.ropeOfStake[pc.first] in {pc.f, pc.s} && s.ropeOfStake[pc.second] in {pc.f, pc.s}
    && s.stakeOfRope[pc.f] in {pc.first, pc.second} && s.stakeOfRope[pc.s] in {pc.first, pc.second}
    && (pc.k >= 1 ==> s.ropeOfStake[pc.first] == pc.s)
    && (pc.k >= 2 ==> s.ropeOfStake[pc.second] == pc.f)
    && (pc.k >= 3 ==> s.stakeOfRope[pc.f] == pc.second)
  }

  ghost predicate RopeFree(s: Sys, r: Rope) {
    forall t: Thread | Writing(s, t) :: s.pc[t].f != r && s.pc[t].s != r
  }

  ghost predicate StakeFree(s: Sys, k: Rope) {
    forall t: Thread | Writing(s, t) :: s.pc[t].first != k && s.pc[t].second != k
  }

  // The mapping is right wherever nobody is writing, and every writer is on its way to make it so.
  ghost predicate MapOk(s: Sys) {
    && Shape(s)
    && (forall t: Thread | Writing(s, t) :: WriterOk(s, s.pc[t]))
    && (forall r: Rope | RopeFree(s, r) :: s.ropeOfStake[s.stakeOfRope[r]] == r)
    && (forall k: Rope | StakeFree(s, k) :: s.stakeOfRope[s.ropeOfStake[k]] == k)
  }

  lemma QuietInverse(s: Sys)
    requires MapOk(s) && Quiet(s)
    ensures Inverse(s)
  {
    hide WriterOk;
    forall k: Rope
      ensures s.stakeOfRope[s.ropeOfStake[k]] == k && s.ropeOfStake[s.stakeOfRope[k]] == k
    {
      assert RopeFree(s, k) && StakeFree(s, k);
    }
  }

  // Two swappers that hold their ropes hold different ones.
  lemma RopesApart(s: Sys, t: Thread, u: Thread)
    requires LocksOk(s) && t != u && t in s.pc && (s.pc[t].FHas? || s.pc[t].FWriting?) && Writing(s, u)
    ensures {s.pc[t].f, s.pc[t].s} !! {s.pc[u].f, s.pc[u].s}
  {
    CutOther(s, t, u, s.pc[t].f);
    CutOther(s, t, u, s.pc[t].s);
    assert RopeLock(s.pc[u].f) in Held(s.pc[u]) && RopeLock(s.pc[u].s) in Held(s.pc[u]);
  }

  // A stake that holds a rope t has locked is no other writer's stake.
  lemma StakeApart(s: Sys, t: Thread, u: Thread, k: Rope)
    requires LocksOk(s) && MapOk(s) && t != u && t in s.pc && (s.pc[t].FHas? || s.pc[t].FWriting?) && Writing(s, u)
    requires s.ropeOfStake[k] in {s.pc[t].f, s.pc[t].s}
    ensures s.pc[u].first != k && s.pc[u].second != k
  {
    hide LocksOk;
    RopesApart(s, t, u);
    assert WriterOk(s, s.pc[u]);
  }

  // Steps that leave the mapping and the writers alone.
  lemma SameWriters(s: Sys, s': Sys)
    requires MapOk(s) && s'.ropeOfStake == s.ropeOfStake && s'.stakeOfRope == s.stakeOfRope && |s'.cut| == NROPES
    requires forall u: Thread :: Writing(s', u) <==> Writing(s, u)
    requires forall u: Thread | Writing(s, u) :: u in s'.pc && s'.pc[u] == s.pc[u]
    ensures MapOk(s')
  {
    hide Writing;
    assert forall r: Rope :: RopeFree(s', r) <==> RopeFree(s, r);
    assert forall k: Rope :: StakeFree(s', k) <==> StakeFree(s, k);
  }

  lemma OtherSteps(s: Sys, s': Sys, t: Thread, a: Action)
    requires Step(s, s', t, a) && !GoesOn(s, s', t, a) && !Writing(s, t)
    ensures s'.ropeOfStake == s.ropeOfStake && s'.stakeOfRope == s.stakeOfRope && |s'.cut| == NROPES
    ensures forall u: Thread :: Writing(s', u) <==> Writing(s, u)
    ensures forall u: Thread | Writing(s, u) :: u in s'.pc && s'.pc[u] == s.pc[u]
  {
    hide Held;
  }

  lemma LookKeeps(s: Sys, s': Sys, t: Thread, a: Action)
    requires SysOk(s) && MapOk(s) && Step(s, s', t, a) && GoesOn(s, s', t, a) && StillThere(s, s.pc[t])
    ensures MapOk(s')
  {
    hide CountOk, BalloonOk, LocksOk, Held, Granted, Broadcast;
    var pc := s.pc[t];
    assert PcOk(s, pc);
    assert s'.pc == s.pc[t := FWriting(pc.f, pc.s, pc.first, pc.second, 0)];
    forall k: Rope | k == pc.first || k == pc.second
      ensures s.stakeOfRope[s.ropeOfStake[k]] == k
    {
      assert StakeFree(s, k) by {
        forall u: Thread | Writing(s, u)
          ensures s.pc[u].first != k && s.pc[u].second != k
        {
          StakeApart(s, t, u, k);
        }
      }
    }
    LookAdds(s, s', t);
  }

  lemma LookAdds(s: Sys, s': Sys, t: Thread)
    requires MapOk(s) && t in s.pc && s.pc[t].FHas? && s.pc[t].f != s.pc[t].s && StillThere(s, s.pc[t])
    requires var pc := s.pc[t]; s' == s.(pc := s.pc[t := FWriting(pc.f, pc.s, pc.first, pc.second, 0)])
    requires s.stakeOfRope[s.ropeOfStake[s.pc[t].first]] == s.pc[t].first
    requires s.stakeOfRope[s.ropeOfStake[s.pc[t].second]] == s.pc[t].second
    ensures MapOk(s')
  {
    forall u: Thread | Writing(s', u)
      ensures WriterOk(s', s'.pc[u])
    {
      if u != t {
        assert Writing(s, u) && WriterOk(s, s.pc[u]);
      }
    }
    hide WriterOk;
    forall r: Rope | RopeFree(s', r)
      ensures s.ropeOfStake[s.stakeOfRope[r]] == r
    {
      assert forall u: Thread | Writing(s, u) :: Writing(s', u) && s'.pc[u] == s.pc[u];
      assert RopeFree(s, r);
    }
    forall k: Rope | StakeFree(s', k)
      ensures s.stakeOfRope[s.ropeOfStake[k]] == k
    {
      assert forall u: Thread | Writing(s, u) :: Writing(s', u) && s'.pc[u] == s.pc[u];
      assert StakeFree(s, k);
    }
  }

  lemma WriteKeeps(s: Sys, s': Sys, t: Thread, a: Action)
    requires SysOk(s) && MapOk(s) && Step(s, s', t, a) && Writing(s, t)
    ensures MapOk(s')
  {
    hide CountOk, BalloonOk, LocksOk;
    assert PcOk(s, s.pc[t]) && WriterOk(s, s.pc[t]);
    hide WriterOk;
    OneWrite(s, s', t, a);
    hide Step, PcOk;
    WroteNow(s, s', t);
    forall u: Thread | Writing(s', u)
      ensures WriterOk(s', s'.pc[u])
    {
      if u != t {
        OtherWriter(s, s', t, u);
      }
    }
    hide SysOk;
    forall r: Rope | RopeFree(s', r)
      ensures s'.ropeOfStake[s'.stakeOfRope[r]] == r
    {
      FreeRopeAfter(s, s', t, r);
    }
    forall k: Rope | StakeFree(s', k)
      ensures s'.stakeOfRope[s'.ropeOfStake[k]] == k
    {
      FreeStakeAfter(s, s', t, k);
    }
  }

  lemma OtherWriter(s: Sys, s': Sys, t: Thread, u: Thread)
    requires LocksOk(s) && MapOk(s) && u != t && Writing(s, t) && Assigned(s, s', t) && Writing(s', u)
    ensures WriterOk(s', s'.pc[u])
  {
    hide LocksOk;
    assert WriterOk(s, s.pc[t]) && WriterOk(s, s.pc[u]);
    RopesApart(s, t, u);
    StakeApart(s, t, u, s.pc[t].first);
    StakeApart(s, t, u, s.pc[t].second);
  }

  // The state after one of t's four assignments.
  predicate Assigned(s: Sys, s': Sys, t: Thread)
    requires Shape(s) && Writing(s, t)
  {
    && t in s'.pc && s'.pc == s.pc[t := s'.pc[t]] && Shape(s')
    && s'.ropeOfStake == Written(s, s.pc[t]).ropeOfStake && s'.stakeOfRope == Written(s, s.pc[t]).stakeOfRope
    && (if s.pc[t].k < 3 then s'.pc[t] == s.pc[t].(k := s.pc[t].k + 1) else s'.pc[t].FWantPrint?)
  }

  lemma OneWrite(s: Sys, s': Sys, t: Thread, a: Action)
    requires Step(s, s', t, a) && Writing(s, t)
    ensures Assigned(s, s', t)
  {
    hide Held, Granted, Broadcast;
  }

  // An assignment on the way to the swap, or the last one, which completes it.
  ghost predicate Wrote(s: Sys, s': Sys, t: Thread)
    requires Shape(s) && Writing(s, t)
  {
    var pc := s.pc[t];
    && Assigned(s, s', t)
    && (Writing(s', t) ==> WriterOk(s', s'.pc[t]))
    && (!Writing(s', t) ==> s'.ropeOfStake[pc.first] == pc.s && s'.ropeOfStake[pc.second] == pc.f
                            && s'.stakeOfRope[pc.f] == pc.second && s'.stakeOfRope[pc.s] == pc.first)
  }

  lemma WroteNow(s: Sys, s': Sys, t: Thread)
    requires Shape(s) && Writing(s, t) && s.pc[t].k <= 3 && WriterOk(s, s.pc[t]) && Assigned(s, s', t)
    ensures Wrote(s, s', t)
  {}

  lemma FreeRopeAfter(s: Sys, s': Sys, t: Thread, r: Rope)
    requires MapOk(s) && Writing(s, t) && Wrote(s, s', t) && RopeFree(s', r)
    ensures s'.ropeOfStake[s'.stakeOfRope[r]] == r
  {
    var pc := s.pc[t];
    assert WriterOk(s, pc);
    hide WriterOk;
    if r != pc.f && r != pc.s {
      assert forall u: Thread | Writing(s, u) && u != t :: Writing(s', u) && s'.pc[u] == s.pc[u];
      assert RopeFree(s, r);
      FreeRopeStake(s, t, r);
    } else {
      assert !Writing(s', t);
    }
  }

  lemma FreeRopeStake(s: Sys, t: Thread, r: Rope)
    requires MapOk(s) && Writing(s, t) && RopeFree(s, r)
    ensures s.stakeOfRope[r] != s.pc[t].first && s.stakeOfRope[r] != s.pc[t].second
  {
    assert WriterOk(s, s.pc[t]);
  }

  lemma FreeStakeAfter(s: Sys, s': Sys, t: Thread, k: Rope)
    requires MapOk(s) && Writing(s, t) && Wrote(s, s', t) && StakeFree(s', k)
    ensures s'.stakeOfRope[s'.ropeOfStake[k]] == k
  {
    var pc := s.pc[t];
    assert WriterOk(s, pc);
    hide WriterOk;
    if k != pc.first && k != pc.second {
      assert forall u: Thread | Writing(s, u) && u != t :: Writing(s', u) && s'.pc[u] == s.pc[u];
      assert StakeFree(s, k);
      FreeStakeRope(s, t, k);
    } else {
      assert !Writing(s', t);
    }
  }

  lemma FreeStakeRope(s: Sys, t: Thread, k: Rope)
    requires MapOk(s) && Writing(s, t) && StakeFree(s, k)
    ensures s.ropeOfStake[k] != s.pc[t].f && s.ropeOfStake[k] != s.pc[t].s
  {
    assert WriterOk(s, s.pc[t]);
  }

  // ---------------------------------------------------------------- over runs

  // Every swapper that went on to write within the first n steps found its ropes still there.
  ghost predicate NoneStale(states: seq<Sys>, acts: seq<(Thread, Action)>, n: nat)
    requires n <= |acts| < |states|
  {
    forall i | 0 <= i < n && GoesOn(states[i], states[i + 1], acts[i].0, acts[i].1) ::
      Shape(states[i]) && StillThere(states[i], states[i].pc[acts[i].0])
  }

  lemma {:induction false} MapHolds(states: seq<Sys>, acts: seq<(Thread, Action)>, n: nat)
    requires Run(states, acts) && n <= |acts| && NoneStale(states, acts, n)
    ensures MapOk(states[n])
  {
    hide SysOk, Step, StillThere;
    if n == 0 {
      InitMap(states[0]);
    } else {
      hide Init, MapOk;
      MapHolds(states, acts, n - 1);
      RunOk(states, acts, n - 1);
      MapStep(states[n - 1], states[n], acts[n - 1].0, acts[n - 1].1);
    }
  }

  lemma InitMap(s: Sys)
    requires Init(s)
    ensures MapOk(s)
  {}

  lemma MapStep(s: Sys, s': Sys, t: Thread, a: Action)
    requires SysOk(s) && MapOk(s) && Step(s, s', t, a) && (GoesOn(s, s', t, a) ==> Shape(s) && StillThere(s, s.pc[t]))
    ensures MapOk(s')
  {
    hide SysOk, Step, StillThere, MapOk;
    if GoesOn(s, s', t, a) {
      LookKeeps(s, s', t, a);
    } else if Writing(s, t) {
      WriteKeeps(s, s', t, a);
    } else {
      OtherSteps(s, s', t, a);
      SameWriters(s, s');
    }
  }

  /**
   In every run in which each swapper that goes on to write still finds its ropes on the stakes
   it read them from, ropes and stakes match whenever nobody is in the middle of writing, however
   the writes of different swappers interleave.
   */
  lemma MappingKept(states: seq<Sys>, acts: seq<(Thread, Action)>, n: nat)
    requires Run(states, acts) && n <= |acts| && NoneStale(states, acts, n) && Quiet(states[n])
    ensures Shape(states[n]) && Inverse(states[n])
  {
    hide Init, Step, NoneStale, Quiet;
    MapHolds(states, acts, n);
    QuietInverse(states[n]);
  }

  // ---------------------------------------------------------------- a swapper that went on regardless

  /**
   What has happened by s to the swap t went on with at s0, if nobody else went on since: the
   writers left are those of s0, only they touched their stakes, and t alone wrote its ropes' stakes.
   */
  ghost predicate Since(s0: Sys, s: Sys, t: Thread)
    requires Shape(s0) && t in s0.pc && s0.pc[t].FHas?
  {
    var pc := s0.pc[t];
    && Shape(s)
    && (forall u: Thread | u != t && Writing(s, u) :: Writing(s0, u) && SameSwap(s.pc[u], s0.pc[u]))
    && (if Writing(s, t) then SameSwap(s.pc[t], pc) && (s.pc[t].k >= 3 ==> s.stakeOfRope[pc.f] == pc.second)
        else s.stakeOfRope[pc.f] == pc.second && s.stakeOfRope[pc.s] == pc.first)
    && (forall k: Rope | StakeFree(s0, k) && k != pc.first && k != pc.second :: s.ropeOfStake[k] == s0.ropeOfStake[k])
  }

  predicate SameSwap(pc: Pc, was: Pc) {
    && pc.FWriting? && (was.FWriting? || was.FHas?)
    && pc.f == was.f && pc.s == was.s && pc.first == was.first && pc.second == was.second
  }

  lemma SinceStep(s0: Sys, s: Sys, s': Sys, t: Thread, u: Thread, a: Action)
    requires SysOk(s0) && t in s0.pc && s0.pc[t].FHas? && SysOk(s) && Since(s0, s, t)
    requires Step(s, s', u, a) && !GoesOn(s, s', u, a)
    ensures Since(s0, s', t)
  {
    assert PcOk(s0, s0.pc[t]);
    hide SysOk, Step;
    if !Writing(s, u) {
      OtherSteps(s, s', u, a);
    } else {
      WriterBound(s, u);
      OneWrite(s, s', u, a);
      if u == t {
        SinceOwn(s0, s, s', t);
      } else {
        SinceOther(s0, s, s', t, u);
      }
    }
  }

  lemma WriterBound(s: Sys, u: Thread)
    requires SysOk(s) && Writing(s, u)
    ensures s.pc[u].k <= 3
  {
    hide LocksOk, CountOk, BalloonOk;
    assert PcOk(s, s.pc[u]);
  }

  lemma SinceOwn(s0: Sys, s: Sys, s': Sys, t: Thread)
    requires Shape(s0) && t in s0.pc && s0.pc[t].FHas? && Since(s0, s, t) && Writing(s, t) && s.pc[t].k <= 3
    requires s0.pc[t].f != s0.pc[t].s && Assigned(s, s', t)
    ensures Since(s0, s', t)
  {
    hide StakeFree;
  }

  lemma SinceOther(s0: Sys, s: Sys, s': Sys, t: Thread, u: Thread)
    requires SysOk(s0) && t in s0.pc && s0.pc[t].FHas? && Since(s0, s, t) && u != t && Writing(s, u)
    requires Assigned(s, s', u)
    ensures Since(s0, s', t)
  {
    var pc, w := s0.pc[t], s.pc[u];
    assert LocksOk(s0);
    hide SysOk, LocksOk;
    RopesApart(s0, t, u);
    assert s'.stakeOfRope[pc.f] == s.stakeOfRope[pc.f] && s'.stakeOfRope[pc.s] == s.stakeOfRope[pc.s];
    assert Writing(s', t) <==> Writing(s, t);
    forall k: Rope | StakeFree(s0, k) && k != pc.first && k != pc.second
      ensures s'.ropeOfStake[k] == s0.ropeOfStake[k]
    {
      assert k != w.first && k != w.second;
    }
    forall v: Thread | v != t && Writing(s', v)
      ensures Writing(s0, v) && SameSwap(s'.pc[v], s0.pc[v])
    {
      assert Writing(s, v);
    }
  }

  lemma {:induction false} SinceHolds(states: seq<Sys>, acts: seq<(Thread, Action)>, i: nat, n: nat)
    requires Run(states, acts) && i < n <= |acts| && GoesOn(states[i], states[i + 1], acts[i].0, acts[i].1)
    requires forall j | i < j < n :: !GoesOn(states[j], states[j + 1], acts[j].0, acts[j].1)
    ensures Shape(states[i]) && Since(states[i], states[n], acts[i].0)
  {
    hide SysOk, Init, Since, GoesOn;
    RunOk(states, acts, i);
    ShapeOf(states[i]);
    var t := acts[i].0;
    if n == i + 1 {
      SinceFirst(states[i], states[n], t, acts[i].1);
    } else {
      hide Step;
      SinceHolds(states, acts, i, n - 1);
      RunOk(states, acts, n - 1);
      HasBoth(states[i], states[i + 1], t, acts[i].1);
      SinceStep(states[i], states[n - 1], states[n], t, acts[n - 1].0, acts[n - 1].1);
    }
  }

  lemma HasBoth(s: Sys, s': Sys, t: Thread, a: Action)
    requires GoesOn(s, s', t, a)
    ensures t in s.pc && s.pc[t].FHas?
  {}

  lemma SinceFirst(s: Sys, s': Sys, t: Thread, a: Action)
    requires Step(s, s', t, a) && GoesOn(s, s', t, a)
    ensures Since(s, s', t)
  {
    hide Held, Granted, Broadcast;
    var pc := s.pc[t];
    assert s'.pc == s.pc[t := FWriting(pc.f, pc.s, pc.first, pc.second, 0)];
  }

  lemma StaleBreaks(s0: Sys, s: Sys, t: Thread)
    requires SysOk(s0) && MapOk(s0) && t in s0.pc && s0.pc[t].FHas? && Since(s0, s, t) && Quiet(s)
    requires !StillThere(s0, s0.pc[t])
    ensures !Inverse(s)
  {
    var pc := s0.pc[t];
    assert PcOk(s0, pc);
    var kf, kg := s0.stakeOfRope[pc.f], s0.stakeOfRope[pc.s];
    LockedRope(s0, t, pc.f);
    LockedRope(s0, t, pc.s);
    assert kf != kg;
    hide SysOk, MapOk, PcOk, StakeFree;
    assert s.stakeOfRope[pc.f] == pc.second && s.stakeOfRope[pc.s] == pc.first;
    if pc.first != pc.second {
      if kf != pc.first && kf != pc.second {
        assert s.ropeOfStake[kf] == pc.f;
      } else {
        assert kg != pc.first && kg != pc.second;
        assert s.ropeOfStake[kg] == pc.s;
      }
    }
  }

  // A rope that t has locked but nobody writes is on a stake that nobody writes.
  lemma LockedRope(s: Sys, t: Thread, r: Rope)
    requires SysOk(s) && MapOk(s) && t in s.pc && s.pc[t].FHas? && r in {s.pc[t].f, s.pc[t].s}
    ensures s.ropeOfStake[s.stakeOfRope[r]] == r && StakeFree(s, s.stakeOfRope[r])
  {
    hide CountOk, BalloonOk, LocksOk, PcOk, WriterOk;
    forall u: Thread | Writing(s, u)
      ensures s.pc[u].f != r && s.pc[u].s != r
    {
      RopesApart(s, t, u);
    }
    assert RopeFree(s, r);
    forall u: Thread | Writing(s, u)
      ensures s.pc[u].first != s.stakeOfRope[r] && s.pc[u].second != s.stakeOfRope[r]
    {
      StakeApart(s, t, u, s.stakeOfRope[r]);
    }
  }

  /**
   The exact condition: when a swapper goes on to write (and no one before it was stale), then at
   the next point where nobody is writing, ropes and stakes match if and only if it still found its
   two ropes on the two stakes it had read. The code does not check this once it has the locks.
   */
  lemma MappingIff(states: seq<Sys>, acts: seq<(Thread, Action)>, i: nat, n: nat)
    requires Run(states, acts) && i < n <= |acts| && NoneStale(states, acts, i) && Quiet(states[n])
    requires GoesOn(states[i], states[i + 1], acts[i].0, acts[i].1)
    requires forall j | i < j < n :: !GoesOn(states[j], states[j + 1], acts[j].0, acts[j].1)
    ensures Shape(states[i]) && Shape(states[n])
    ensures Inverse(states[n]) <==> StillThere(states[i], states[i].pc[acts[i].0])
  {
    hide Init, Step, SysOk, Quiet, MapOk, Since, StillThere, Inverse;
    RunOk(states, acts, i);
    RunOk(states, acts, n);
    ShapeOf(states[i]);
    ShapeOf(states[n]);
    if StillThere(states[i], states[i].pc[acts[i].0]) {
      assert NoneStale(states, acts, n);
      MappingKept(states, acts, n);
    } else {
      MapHolds(states, acts, i);
      SinceHolds(states, acts, i, n);
      StaleBreaks(states[i], states[n], acts[i].0);
    }
  }

  // ---------------------------------------------------------------- a run that breaks the mapping

  lemma Extend(states: seq<Sys>, acts: seq<(Thread, Action)>, s: Sys, s': Sys, t: Thread, a: Action)
      returns (states': seq<Sys>, acts': seq<(Thread, Action)>)
    requires Run(states, acts) && states[|acts|] == s && Step(s, s', t, a)
    ensures Run(states', acts') && states'[0] == states[0] && states'[|acts'|] == s'
  {
    hide Step, Init;
    states', acts' := states + [s'], acts + [(t, a)];
  }

  function Identity(): (m: seq<Rope>)
    ensures |m| == NROPES && forall r: Rope :: m[r] == r
  {
    seq(NROPES, i requires 0 <= i < NROPES => i)
  }

  function PcOf(s: Sys, t: Thread, p: Pc): Sys {
    s.(pc := s.pc[t := p])
  }

  // A swapper picks stakes first and second, on which it sees two ropes in order, and stops there.
  lemma Picks(states: seq<Sys>, acts: seq<(Thread, Action)>, s: Sys, t: Thread, first: Rope, second: Rope)
      returns (states': seq<Sys>, acts': seq<(Thread, Action)>)
    requires Run(states, acts) && states[|acts|] == s && Shape(s) && s.left > 0 && s.holder == map[]
    requires t in s.pc && s.pc[t] == FTop && s.ropeOfStake[first] < s.ropeOfStake[second]
    ensures Run(states', acts') && states'[0] == states[0]
    ensures states'[|acts'|] == PcOf(s, t, FWantFirst(s.ropeOfStake[first], s.ropeOfStake[second], first, second))
  {
    hide Run;
    var s1 := PcOf(s, t, FCheck).(holder := map[CountLock := t]);
    var s2 := PcOf(s, t, FChoose);
    var s3 := PcOf(s, t, FRead(first, second, s.ropeOfStake[first]));
    var s4 := PcOf(s, t, FWantFirst(s.ropeOfStake[first], s.ropeOfStake[second], first, second));
    states', acts' := Extend(states, acts, s, s1, t, Acquire);
    assert s1.holder - {CountLock} == map[];
    states', acts' := Extend(states', acts', s1, s2, t, Check);
    states', acts' := Extend(states', acts', s2, s3, t, ChooseTwo(first, second));
    states', acts' := Extend(states', acts', s3, s4, t, ReadSecond);
  }

  // It then locks the two ropes and finds neither cut.
  lemma Locks(states: seq<Sys>, acts: seq<(Thread, Action)>, s: Sys, t: Thread, f: Rope, g: Rope, first: Rope,
        second: Rope)
      returns (states': seq<Sys>, acts': seq<(Thread, Action)>)
    requires Run(states, acts) && states[|acts|] == s && Shape(s) && s.holder == map[] && !s.cut[f] && !s.cut[g]
    requires t in s.pc && f != g && s.pc[t] == FWantFirst(f, g, first, second)
    ensures Run(states', acts') && states'[0] == states[0]
    ensures states'[|acts'|] == PcOf(s, t, FWriting(f, g, first, second, 0)).(holder := map[RopeLock(f) := t,
            RopeLock(g) := t])
  {
    hide Run;
    var s1 := PcOf(s, t, FWantSecond(f, g, first, second)).(holder := map[RopeLock(f) := t]);
    var s2 := PcOf(s, t, FHas(f, g, first, second)).(holder := map[RopeLock(f) := t, RopeLock(g) := t]);
    states', acts' := Extend(states, acts, s, s1, t, Acquire);
    states', acts' := Extend(states', acts', s1, s2, t, Acquire);
    states', acts' := Extend(states', acts', s2, PcOf(s2, t, FWriting(f, g, first, second, 0)), t, Look);
  }

  // One assignment.
  lemma Assigns(states: seq<Sys>, acts: seq<(Thread, Action)>, s: Sys, t: Thread) returns (states': seq<Sys>,
        acts': seq<(Thread, Action)>)
    requires Run(states, acts) && states[|acts|] == s && Shape(s) && Writing(s, t)
    ensures Run(states', acts') && states'[0] == states[0]
    ensures var pc := s.pc[t];
            states'[|acts'|] == PcOf(Written(s, pc), t, if pc.k < 3 then pc.(k := pc.k + 1) else FWantPrint(pc.f, pc.s))
  {
    hide Run;
    var pc := s.pc[t];
    states', acts' := Extend(states, acts, s, PcOf(Written(s, pc), t, if pc.k < 3 then pc.(k := pc.k + 1)
      else FWantPrint(pc.f, pc.s)), t, WriteOne);
  }

  lemma Writes(states: seq<Sys>, acts: seq<(Thread, Action)>, s: Sys, t: Thread, f: Rope, g: Rope, first: Rope,
        second: Rope)
      returns (states': seq<Sys>, acts': seq<(Thread, Action)>)
    requires Run(states, acts) && states[|acts|] == s && Shape(s) && s.holder == map[] && !s.cut[f] && !s.cut[g]
    requires t in s.pc && f != g && s.pc[t] == FWantFirst(f, g, first, second)
    ensures Run(states', acts') && states'[0] == states[0]
    ensures states'[|acts'|] == PcOf(s, t, FWantPrint(f, g)).(
      holder := map[RopeLock(f) := t, RopeLock(g) := t],
      ropeOfStake := s.ropeOfStake[first := g][second := f], stakeOfRope := s.stakeOfRope[f := second][g := first])
  {
    hide Init, Step;
    states', acts' := Locks(states, acts, s, t, f, g, first, second);
    states', acts' := Assigns(states', acts', states'[|acts'|], t);
    states', acts' := Assigns(states', acts', states'[|acts'|], t);
    states', acts' := Assigns(states', acts', states'[|acts'|], t);
    states', acts' := Assigns(states', acts', states'[|acts'|], t);
  }

  // And then prints.
  lemma Prints(states: seq<Sys>, acts: seq<(Thread, Action)>, s: Sys, t: Thread, f: Rope, g: Rope)
      returns (states': seq<Sys>, acts': seq<(Thread, Action)>)
    requires Run(states, acts) && states[|acts|] == s && Shape(s) && PrintLock !in s.holder
    requires t in s.pc && s.pc[t] == FWantPrint(f, g)
    ensures Run(states', acts') && states'[0] == states[0] && states'[|acts'|] == PcOf(s, t, FReleaseFirst(f, g))
  {
    hide Run;
    var s1 := PcOf(s, t, FPrinting(f, g)).(holder := s.holder[PrintLock := t]);
    states', acts' := Extend(states, acts, s, s1, t, Acquire);
    assert s1.holder - {PrintLock} == s.holder;
    states', acts' := Extend(states', acts', s1, PcOf(s, t, FReleaseFirst(f, g)), t, EndPrint);
  }

  // And gives up its locks.
  lemma LetsGo(states: seq<Sys>, acts: seq<(Thread, Action)>, s: Sys, t: Thread, f: Rope, g: Rope)
      returns (states': seq<Sys>, acts': seq<(Thread, Action)>)
    requires Run(states, acts) && states[|acts|] == s && Shape(s) && f != g
    requires s.holder == map[RopeLock(f) := t, RopeLock(g) := t] && t in s.pc && s.pc[t] == FReleaseFirst(f, g)
    ensures Run(states', acts') && states'[0] == states[0] && states'[|acts'|] == PcOf(s, t, FTop).(holder := map[])
  {
    hide Run;
    var s1 := PcOf(s, t, FReleaseSecond(g)).(holder := map[RopeLock(g) := t]);
    assert s.holder - {RopeLock(f)} == s1.holder;
    states', acts' := Extend(states, acts, s, s1, t, Release);
    assert s1.holder - {RopeLock(g)} == map[];
    states', acts' := Extend(states', acts', s1, PcOf(s, t, FTop).(holder := map[]), t, Release);
  }

  /**
   Whatever threads there are, if two of them are swappers there is a run that ends with nobody
   writing and rope 1 on two stakes: t picks stakes 0 and 1, u picks stakes 1 and 2 and swaps them,
   then t swaps what is no longer there. The others need not have been scheduled yet.
   */
  lemma StaleRun(pcs: map<Thread, Pc>, t: Thread, u: Thread) returns (states: seq<Sys>, acts: seq<(Thread, Action)>)
    requires AtTop(pcs) && t != u && t in pcs && u in pcs && pcs[t].FTop? && pcs[u].FTop?
    ensures Run(states, acts) && states[0].pc == pcs
    ensures var s := states[|acts|];
            && Shape(s) && Quiet(s) && !Inverse(s)
            && s.ropeOfStake[0] == s.ropeOfStake[2] == 1 && s.stakeOfRope[2] == s.stakeOfRope[0] == 1
  {
    var id := Identity();
    var s0 := Sys(NROPES, seq(NROPES, i => false), id, id, map[], pcs);
    states, acts := [s0], [];
    assert Run(states, acts);
    hide Init, Step, Identity;
    states, acts := Picks(states, acts, s0, t, 0, 1);
    states, acts := Picks(states, acts, states[|acts|], u, 1, 2);
    states, acts := Writes(states, acts, states[|acts|], u, 1, 2, 1, 2);
    states, acts := Prints(states, acts, states[|acts|], u, 1, 2);
    states, acts := LetsGo(states, acts, states[|acts|], u, 1, 2);
    states, acts := Writes(states, acts, states[|acts|], t, 0, 1, 0, 1);
    var s := states[|acts|];
    assert s.ropeOfStake[2] == 1 && s.stakeOfRope[1] == 0;
  }

  // In particular with the threads airballoon forks.
  lemma StaleForked() returns (states: seq<Sys>, acts: seq<(Thread, Action)>)
    ensures Run(states, acts) && states[0].pc == Forked()
    ensures var s := states[|acts|]; Shape(s) && Quiet(s) && !Inverse(s)
  {
    hide Run, Inverse, Quiet;
    states, acts := StaleRun(Forked(), 2, 3);
  }
}
