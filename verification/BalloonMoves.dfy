/**
 What one pass of a thread's loop does, told by the choices it made: which rope a cutter severs,
 which ropes a swapper puts on which stakes, and who leaves.
 */
module BalloonMoves {
  import opened Basics
  import opened Balloon
  import BalloonSwaps

  // Thread t makes choice a at step i, and no other before step n.
  predicate Chose(acts: seq<(Thread, Action)>, t: Thread, a: Action, i: nat, n: nat) {
    && i < n <= |acts| && acts[i] == (t, a) && Choice(a)
    && forall j | i < j < n && acts[j].0 == t :: !Choice(acts[j].1)
  }

  predicate Choice(a: Action) {
    a.ChooseHook? || a.ChooseStake? || a.ChooseTwo?
  }

  // ---------------------------------------------------------------- one step

  // A step of another thread leaves t where it is, except that a broadcast wakes a balloon.
  lemma OtherThread(s: Sys, s': Sys, u: Thread, a: Action, t: Thread)
    requires Step(s, s', u, a) && t in s.pc && t != u
    ensures t in s'.pc && (s'.pc[t] == s.pc[t] || (s.pc[t].BAsleep? && s'.pc[t].BWoken?))
  {
    hide Held;
  }

  // The rope and stake a cutter is after.
  predicate Cutting(pc: Pc, r: Rope, stake: Option<Rope>) {
    && (pc.CWant? || pc.CHas? ==> pc.r == r && pc.stake == stake)
    && !pc.FRead? && !pc.FWantFirst? && !pc.FWantSecond? && !pc.FHas? && !pc.FWriting?
  }

  lemma CuttingStep(s: Sys, s': Sys, t: Thread, a: Action, r: Rope, stake: Option<Rope>)
    requires Step(s, s', t, a) && Cutting(s.pc[t], r, stake) && !Choice(a)
    ensures t in s'.pc && Cutting(s'.pc[t], r, stake)
  {
    hide Held;
  }

  // The ropes and stakes a swapper is after: it read rope g on stake a, and then rope h on stake b.
  predicate Swapping(pc: Pc, a: Rope, b: Rope, g: Rope, h: Rope) {
    && (pc.FWantFirst? || pc.FWantSecond? || pc.FHas? || pc.FWriting? ==>
          g != h && (pc.f, pc.s, pc.first, pc.second) == if h < g then (h, g, b, a) else (g, h, a, b))
    && !pc.FRead? && !pc.CWant? && !pc.CHas?
  }

  lemma SwappingStep(s: Sys, s': Sys, t: Thread, x: Action, a: Rope, b: Rope, g: Rope, h: Rope)
    requires Step(s, s', t, x) && Swapping(s.pc[t], a, b, g, h) && !Choice(x)
    ensures t in s'.pc && Swapping(s'.pc[t], a, b, g, h)
  {
    hide Held;
  }

  // ---------------------------------------------------------------- cutters

  // The rope a cutter's choice comes to, and the stake it must be on.
  function RopeChosen(s: Sys, a: Action): Rope
    requires Shape(s) && (a.ChooseHook? || a.ChooseStake?)
  {
    if a.ChooseHook? then a.r else s.ropeOfStake[a.k]
  }

  function StakeChosen(a: Action): Option<Rope> {
    if a.ChooseStake? then Some(a.k) else None
  }

  lemma ChoosesRope(s: Sys, s': Sys, t: Thread, a: Action)
    requires Step(s, s', t, a) && (a.ChooseHook? || a.ChooseStake?)
    ensures t in s'.pc && Cutting(s'.pc[t], RopeChosen(s, a), StakeChosen(a))
  {
    hide Held;
  }

  lemma {:induction false} CuttingSince(states: seq<Sys>, acts: seq<(Thread, Action)>, t: Thread, a: Action, i: nat,
        n: nat)
    requires Run(states, acts) && Chose(acts, t, a, i, n) && (a.ChooseHook? || a.ChooseStake?)
    ensures Shape(states[i]) && t in states[n].pc
    ensures Cutting(states[n].pc[t], RopeChosen(states[i], a), StakeChosen(a))
  {
    hide Init, Step, SysOk, Cutting;
    RunOk(states, acts, i);
    ShapeOf(states[i]);
    if n == i + 1 {
      assert Step(states[i], states[n], acts[i].0, acts[i].1);
      ChoosesRope(states[i], states[n], t, a);
    } else {
      CuttingSince(states, acts, t, a, i, n - 1);
      var (u, x) := acts[n - 1];
      if u == t {
        CuttingStep(states[n - 1], states[n], t, x, RopeChosen(states[i], a), StakeChosen(a));
      } else {
        OtherThread(states[n - 1], states[n], u, x, t);
        StillCutting(states[n - 1].pc[t], states[n].pc[t], RopeChosen(states[i], a), StakeChosen(a));
      }
    }
  }

  lemma StillCutting(pc: Pc, pc': Pc, r: Rope, stake: Option<Rope>)
    requires Cutting(pc, r, stake) && (pc' == pc || pc'.BWoken?)
    ensures Cutting(pc', r, stake)
  {}

  /**
   In every run, a cutter that goes through with its choice severs the rope it chose (Dandelion by
   hook; Marigold the one she saw on her stake) if and only if that rope is not severed yet and, for
   Marigold, its stake is still the one she chose; it severs no other rope and moves none.
   */
  lemma CutsChosen(states: seq<Sys>, acts: seq<(Thread, Action)>, t: Thread, a: Action, i: nat, n: nat)
    requires Run(states, acts) && Chose(acts, t, a, i, n) && (a.ChooseHook? || a.ChooseStake?)
    requires n < |acts| && acts[n] == (t, Cut)
    ensures Shape(states[i]) && Shape(states[n])
    ensures var r := RopeChosen(states[i], a);
            var s, s' := states[n], states[n + 1];
            && s'.ropeOfStake == s.ropeOfStake && s'.stakeOfRope == s.stakeOfRope
            && s'.cut == if s.cut[r] || (a.ChooseStake? && s.stakeOfRope[r] != a.k) then s.cut else s.cut[r := true]
  {
    hide Init, Step, SysOk, Cutting;
    CuttingSince(states, acts, t, a, i, n);
    RunOk(states, acts, n);
    ShapeOf(states[n]);
    assert Step(states[n], states[n + 1], acts[n].0, acts[n].1);
    hide Run, Chose;
    CutStep(states[n], states[n + 1], t, RopeChosen(states[i], a), StakeChosen(a));
  }

  lemma CutStep(s: Sys, s': Sys, t: Thread, r: Rope, stake: Option<Rope>)
    requires Step(s, s', t, Cut) && Cutting(s.pc[t], r, stake)
    ensures s'.ropeOfStake == s.ropeOfStake && s'.stakeOfRope == s.stakeOfRope
    ensures s'.cut == if s.cut[r] || (stake.Some? && s.stakeOfRope[r] != stake.value) then s.cut else s.cut[r := true]
  {
    hide Held;
  }

  // ---------------------------------------------------------------- swappers

  lemma ReadsBoth(s: Sys, s': Sys, t: Thread, a: Rope, b: Rope, g: Rope)
    requires Step(s, s', t, ReadSecond) && s.pc[t] == FRead(a, b, g)
    ensures t in s'.pc && Swapping(s'.pc[t], a, b, g, s.ropeOfStake[b])
  {
    hide Held;
  }

  lemma ReadsFirst(s: Sys, s': Sys, t: Thread, a: Rope, b: Rope)
    requires Step(s, s', t, ChooseTwo(a, b))
    ensures t in s'.pc && s'.pc[t] == FRead(a, b, s.ropeOfStake[a])
  {
    hide Held;
  }

  // The swapper's next step after its choice is step j, in which it reads the second stake.
  predicate Reads(acts: seq<(Thread, Action)>, t: Thread, i: nat, j: nat) {
    i < j < |acts| && acts[j] == (t, ReadSecond) && forall m | i < m < j :: acts[m].0 != t
  }

  lemma {:induction false} ReadFirst(states: seq<Sys>, acts: seq<(Thread, Action)>, t: Thread, a: Rope, b: Rope, i: nat,
        n: nat)
    requires Run(states, acts) && i < n <= |acts| && acts[i] == (t, ChooseTwo(a, b))
    requires forall m | i < m < n :: acts[m].0 != t
    ensures Shape(states[i]) && t in states[n].pc && states[n].pc[t] == FRead(a, b, states[i].ropeOfStake[a])
  {
    hide Init, Step, SysOk;
    RunOk(states, acts, i);
    ShapeOf(states[i]);
    assert Step(states[n - 1], states[n], acts[n - 1].0, acts[n - 1].1);
    if n == i + 1 {
      ReadsFirst(states[i], states[n], t, a, b);
    } else {
      ReadFirst(states, acts, t, a, b, i, n - 1);
      OtherThread(states[n - 1], states[n], acts[n - 1].0, acts[n - 1].1, t);
    }
  }

  lemma {:induction false} SwappingSince(states: seq<Sys>, acts: seq<(Thread, Action)>, t: Thread, a: Rope, b: Rope,
        i: nat, j: nat, n: nat)
    requires Run(states, acts) && Chose(acts, t, ChooseTwo(a, b), i, n) && Reads(acts, t, i, j) && j < n
    ensures Shape(states[i]) && Shape(states[j]) && t in states[n].pc
    ensures Swapping(states[n].pc[t], a, b, states[i].ropeOfStake[a], states[j].ropeOfStake[b])
    decreases n
  {
    hide Init, Step, SysOk, Swapping;
    RunOk(states, acts, i);
    RunOk(states, acts, j);
    ShapeOf(states[i]);
    ShapeOf(states[j]);
    var g, h := states[i].ropeOfStake[a], states[j].ropeOfStake[b];
    var (u, x) := acts[n - 1];
    assert Step(states[n - 1], states[n], u, x);
    if n == j + 1 {
      ReadFirst(states, acts, t, a, b, i, j);
      ReadsBoth(states[j], states[n], t, a, b, g);
    } else {
      SwappingSince(states, acts, t, a, b, i, j, n - 1);
      if u == t {
        SwappingStep(states[n - 1], states[n], t, x, a, b, g, h);
      } else {
        OtherThread(states[n - 1], states[n], u, x, t);
        StillSwapping(states[n - 1].pc[t], states[n].pc[t], a, b, g, h);
      }
    }
  }

  lemma StillSwapping(pc: Pc, pc': Pc, a: Rope, b: Rope, g: Rope, h: Rope)
    requires Swapping(pc, a, b, g, h) && (pc' == pc || pc'.BWoken?)
    ensures Swapping(pc', a, b, g, h)
  {}

  /**
   In every run in which each swapper that goes on to write still finds its ropes on the stakes it
   read, a swapper that has written its four entries has put the rope it read on its first stake
   onto the second, and the one it read on the second onto the first, in both arrays.
   */
  lemma SwapsChosen(states: seq<Sys>, acts: seq<(Thread, Action)>, t: Thread, a: Rope, b: Rope, i: nat, j: nat, n: nat)
    requires Run(states, acts) && Chose(acts, t, ChooseTwo(a, b), i, n) && Reads(acts, t, i, j) && j < n < |acts|
    requires BalloonSwaps.NoneStale(states, acts, n) && acts[n] == (t, WriteOne)
    requires t in states[n + 1].pc && !states[n + 1].pc[t].FWriting?
    ensures Shape(states[i]) && Shape(states[j]) && Shape(states[n + 1])
    ensures var g, h := states[i].ropeOfStake[a], states[j].ropeOfStake[b];
            var s := states[n + 1];
            && a != b && g != h
            && s.ropeOfStake[a] == h && s.ropeOfStake[b] == g && s.stakeOfRope[h] == a && s.stakeOfRope[g] == b
  {
    hide Init, Step, SysOk, Swapping, BalloonSwaps.NoneStale, BalloonSwaps.MapOk;
    SwappingSince(states, acts, t, a, b, i, j, n);
    BalloonSwaps.MapHolds(states, acts, n);
    RunOk(states, acts, n);
    assert Step(states[n], states[n + 1], acts[n].0, acts[n].1);
    hide Run, Chose, Reads;
    LastWrite(states[n], states[n + 1], t, a, b, states[i].ropeOfStake[a], states[j].ropeOfStake[b]);
  }

  lemma LastWrite(s: Sys, s': Sys, t: Thread, a: Rope, b: Rope, g: Rope, h: Rope)
    requires SysOk(s) && BalloonSwaps.MapOk(s) && Step(s, s', t, WriteOne) && Swapping(s.pc[t], a, b, g, h)
    requires t in s'.pc && !s'.pc[t].FWriting?
    ensures Shape(s') && a != b && g != h
    ensures s'.ropeOfStake[a] == h && s'.ropeOfStake[b] == g && s'.stakeOfRope[h] == a && s'.stakeOfRope[g] == b
  {
    Writes(s, s', t);
    BalloonSwaps.WriterBound(s, t);
    assert BalloonSwaps.WriterOk(s, s.pc[t]);
    hide SysOk, BalloonSwaps.MapOk, Step;
    BalloonSwaps.OneWrite(s, s', t, WriteOne);
    BalloonSwaps.WroteNow(s, s', t);
  }

  lemma Writes(s: Sys, s': Sys, t: Thread)
    requires Step(s, s', t, WriteOne)
    ensures BalloonSwaps.Writing(s, t)
  {}

  // ---------------------------------------------------------------- leaving

  // In every run, a thread that looks at ropes_left is through with its loop exactly when none is left.
  lemma LeavesIff(states: seq<Sys>, acts: seq<(Thread, Action)>, t: Thread, n: nat)
    requires Run(states, acts) && n < |acts| && acts[n] == (t, Check)
    ensures t in states[n + 1].pc
    ensures var pc := states[n + 1].pc[t]; pc.CFinished? || pc.FFinished? || pc.BEscaped? <==> states[n].left == 0
  {
    hide Init, Step, LocksOk, BalloonOk;
    RunOk(states, acts, n);
    assert Step(states[n], states[n + 1], acts[n].0, acts[n].1);
    hide Run;
    CheckStep(states[n], states[n + 1], t);
  }

  lemma CheckStep(s: Sys, s': Sys, t: Thread)
    requires Step(s, s', t, Check) && s.left >= 0
    ensures t in s'.pc
    ensures var pc := s'.pc[t]; pc.CFinished? || pc.FFinished? || pc.BEscaped? <==> s.left == 0
  {
    hide Held;
  }
}
