/**
 The air-balloon protocol: threads that cut ropes, threads that swap ropes between
 stakes, and the balloon that waits for the last rope, in any number and any
 interleaving. A step is one access to shared state or one lock operation.
 */
module Balloon {
  import opened Basics

  const NROPES := 16

  type Rope = r: nat | r < NROPES
  type Thread = nat

  datatype Lock = RopeLock(r: Rope) | PrintLock | CountLock

  /**
   Program points. A cutter (Dandelion or Marigold) starts at CTop; stake is the stake Marigold
   started from. A swapper (Lord FlowerKiller) starts at FTop; f and s are the two ropes in lock
   order, first and second the stakes they were read from. The balloon starts at BTop.
   */
  datatype Pc =
    | CTop | CCheck | CChoose | CWant(r: Rope, stake: Option<Rope>) | CHas(r: Rope, stake: Option<Rope>)
    | CWantPrint(r: Rope) | CPrinting(r: Rope) | CReleasing(r: Rope) | CWantCount | CCounting | CFinished
    | FTop | FCheck | FChoose | FRead(first: Rope, second: Rope, got: Rope)
    | FWantFirst(f: Rope, s: Rope, first: Rope, second: Rope) | FWantSecond(f: Rope, s: Rope, first: Rope, second: Rope)
    | FHas(f: Rope, s: Rope, first: Rope, second: Rope) | FWriting(f: Rope, s: Rope, first: Rope, second: Rope, k: nat)
    | FWantPrint(f: Rope, s: Rope) | FPrinting(f: Rope, s: Rope) | FReleaseFirst(f: Rope,
      s: Rope) | FReleaseSecond(s: Rope) | FFinished
    | BTop | BCheck | BAsleep | BWoken | BEscaped

  datatype Sys = Sys(
    left: int,
    cut: seq<bool>,
    ropeOfStake: seq<Rope>,
    stakeOfRope: seq<Rope>,
    holder: map<Lock, Thread>,
    pc: map<Thread, Pc>)

  // The locks a thread holds at each point.
  function Held(pc: Pc): set<Lock> {
    match pc
    case CHas(r, _) => {RopeLock(r)}
    case CWantPrint(r) => {RopeLock(r)}
    case CPrinting(r) => {RopeLock(r), PrintLock}
    case CReleasing(r) => {RopeLock(r)}
    case FWantSecond(f, _, _, _) => {RopeLock(f)}
    case FHas(f, s, _, _) => {RopeLock(f), RopeLock(s)}
    case FWriting(f, s, _, _, _) => {RopeLock(f), RopeLock(s)}
    case FWantPrint(f, s) => {RopeLock(f), RopeLock(s)}
    case FPrinting(f, s) => {RopeLock(f), RopeLock(s), PrintLock}
    case FReleaseFirst(f, s) => {RopeLock(f), RopeLock(s)}
    case FReleaseSecond(s) => {RopeLock(s)}
    case CCheck => {CountLock}
    case CCounting => {CountLock}
    case FCheck => {CountLock}
    case BCheck => {CountLock}
    case _ => {}
  }

  // The lock a thread is in lock_acquire for, if any, and where it gets to with it.
  function Wants(pc: Pc): Option<Lock> {
    match pc
    case CTop => Some(CountLock)
    case CWant(r, _) => Some(RopeLock(r))
    case CWantPrint(_) => Some(PrintLock)
    case CWantCount => Some(CountLock)
    case FTop => Some(CountLock)
    case FWantFirst(f, _, _, _) => Some(RopeLock(f))
    case FWantSecond(_, s, _, _) => Some(RopeLock(s))
    case FWantPrint(_, _) => Some(PrintLock)
    case BTop => Some(CountLock)
    case BWoken => Some(CountLock)
    case _ => None
  }

  function Granted(pc: Pc): Pc
    requires Wants(pc).Some?
  {
    match pc
    case CTop => CCheck
    case CWant(r, stake) => CHas(r, stake)
    case CWantPrint(r) => CPrinting(r)
    case CWantCount => CCounting
    case FTop => FCheck
    case FWantFirst(f, s, first, second) => FWantSecond(f, s, first, second)
    case FWantSecond(f, s, first, second) => FHas(f, s, first, second)
    case FWantPrint(f, s) => FPrinting(f, s)
    case BTop => BCheck
    case BWoken => BCheck
  }

  predicate IsCutter(pc: Pc) {
    || pc.CTop? || pc.CCheck? || pc.CChoose? || pc.CWant? || pc.CHas? || pc.CWantPrint? || pc.CPrinting?
      || pc.CReleasing?
    || pc.CWantCount? || pc.CCounting? || pc.CFinished?
  }

  // A rope has been cut by this thread and not yet taken off ropes_left.
  predicate Uncounted(pc: Pc) {
    pc.CWantPrint? || pc.CPrinting? || pc.CReleasing? || pc.CWantCount? || pc.CCounting?
  }

  // ---------------------------------------------------------------- steps

  datatype Action =
    | Acquire
    | Check
    | ChooseHook(r: Rope) | ChooseStake(k: Rope)
    | Cut
    | EndPrint | Release
    | Count
    | ChooseTwo(first: Rope, second: Rope) | ReadSecond | Look | WriteOne

  predicate Shape(s: Sys) {
    |s.cut| == NROPES && |s.ropeOfStake| == NROPES && |s.stakeOfRope| == NROPES
  }

  // The holder map after t drops the locks in ls.
  function Dropped(s: Sys, ls: set<Lock>): map<Lock, Thread> {
    s.holder - ls
  }

  // cv_broadcast on all_ropes_gone: every sleeping balloon will contend for the lock again.
  function Broadcast(s: Sys): map<Thread, Pc> {
    map t | t in s.pc :: if s.pc[t].BAsleep? then BWoken else s.pc[t]
  }

  // The rope has moved to another stake since Marigold read the mapping, or is cut already.
  predicate Refused(s: Sys, pc: Pc)
    requires Shape(s) && pc.CHas?
  {
    (pc.stake.Some? && s.stakeOfRope[pc.r] != pc.stake.value) || s.cut[pc.r]
  }

  ghost predicate CutterStep(s: Sys, s': Sys, t: Thread, a: Action)
    requires Shape(s) && t in s.pc
  {
    var pc := s.pc[t];
    match a
    case Check =>
      && pc.CCheck?
      && s' == s.(holder := Dropped(s, {CountLock}), pc := if s.left == 0 then Broadcast(s)[t := CFinished]
        else s.pc[t := CChoose])
    case ChooseHook(r) => pc.CChoose? && s' == s.(pc := s.pc[t := CWant(r, None)])
    case ChooseStake(k) => pc.CChoose? && s' == s.(pc := s.pc[t := CWant(s.ropeOfStake[k], Some(k))])
    case Cut =>
      && pc.CHas?
      && if Refused(s, pc) then
           s' == s.(holder := Dropped(s, {RopeLock(pc.r)}), pc := s.pc[t := CTop])
         else
           s' == s.(cut := s.cut[pc.r := true], pc := s.pc[t := CWantPrint(pc.r)])
    case EndPrint => pc.CPrinting? && s' == s.(holder := Dropped(s, {PrintLock}), pc := s.pc[t := CReleasing(pc.r)])
    case Release => pc.CReleasing? && s' == s.(holder := Dropped(s, {RopeLock(pc.r)}), pc := s.pc[t := CWantCount])
    case Count => pc.CCounting?
      && s' == s.(left := s.left - 1, holder := Dropped(s, {CountLock}), pc := s.pc[t := CTop])
    case _ => false
  }

  // The four assignments of a swap, in order.
  function Written(s: Sys, pc: Pc): Sys
    requires Shape(s) && pc.FWriting?
  {
    if pc.k == 0 then s.(ropeOfStake := s.ropeOfStake[pc.first := pc.s])
    else if pc.k == 1 then s.(ropeOfStake := s.ropeOfStake[pc.second := pc.f])
    else if pc.k == 2 then s.(stakeOfRope := s.stakeOfRope[pc.f := pc.second])
    else s.(stakeOfRope := s.stakeOfRope[pc.s := pc.first])
  }

  ghost predicate SwapperStep(s: Sys, s': Sys, t: Thread, a: Action)
    requires Shape(s) && t in s.pc
  {
    var pc := s.pc[t];
    match a
    case Check =>
      && pc.FCheck?
      && s' == s.(holder := Dropped(s, {CountLock}), pc := s.pc[t := if s.left == 0 then FFinished else FChoose])
    case ChooseTwo(first, second) => pc.FChoose?
      && s' == s.(pc := s.pc[t := FRead(first, second, s.ropeOfStake[first])])
    case ReadSecond =>
      && pc.FRead?
      && var g, h := pc.got, s.ropeOfStake[pc.second];
         s' == s.(pc := s.pc[t :=
           if g == h then FTop
           else if h < g then FWantFirst(h, g, pc.second, pc.first)
           else FWantFirst(g, h, pc.first, pc.second)])
    case Look =>
      && pc.FHas?
      && s' == s.(pc := s.pc[t := if s.cut[pc.f] || s.cut[pc.s] then FReleaseFirst(pc.f, pc.s)
        else FWriting(pc.f, pc.s, pc.first, pc.second, 0)])
    case WriteOne =>
      && pc.FWriting?
      && s' == Written(s, pc).(pc := s.pc[t := if pc.k < 3 then pc.(k := pc.k + 1) else FWantPrint(pc.f, pc.s)])
    case EndPrint => pc.FPrinting?
      && s' == s.(holder := Dropped(s, {PrintLock}), pc := s.pc[t := FReleaseFirst(pc.f, pc.s)])
    case Release =>
      || (pc.FReleaseFirst? && s' == s.(holder := Dropped(s, {RopeLock(pc.f)}), pc := s.pc[t := FReleaseSecond(pc.s)]))
      || (pc.FReleaseSecond? && s' == s.(holder := Dropped(s, {RopeLock(pc.s)}), pc := s.pc[t := FTop]))
    case _ => false
  }

  // The balloon's loop; cv_wait gives the lock up as it falls asleep.
  ghost predicate BalloonStep(s: Sys, s': Sys, t: Thread, a: Action)
    requires t in s.pc
  {
    && a.Check? && s.pc[t].BCheck?
    && s' == s.(holder := Dropped(s, {CountLock}), pc := s.pc[t := if s.left > 0 then BAsleep else BEscaped])
  }

  ghost predicate AcquireStep(s: Sys, s': Sys, t: Thread, a: Action)
    requires t in s.pc
  {
    && a.Acquire? && Wants(s.pc[t]).Some? && Wants(s.pc[t]).value !in s.holder
    && s' == s.(holder := s.holder[Wants(s.pc[t]).value := t], pc := s.pc[t := Granted(s.pc[t])])
  }

  ghost predicate Step(s: Sys, s': Sys, t: Thread, a: Action) {
    && Shape(s) && t in s.pc
    && (CutterStep(s, s', t, a) || SwapperStep(s, s', t, a) || BalloonStep(s, s', t, a) || AcquireStep(s, s', t, a))
  }

  // ---------------------------------------------------------------- the invariant

  function Uncut(cut: seq<bool>): set<nat> {
    set r | 0 <= r < |cut| && !cut[r]
  }

  function Pending(pc: map<Thread, Pc>): set<Thread> {
    set t | t in pc && Uncounted(pc[t])
  }

  // Ropes being swapped are in lock order and, once looked at, uncut.
  predicate PcOk(s: Sys, pc: Pc)
    requires Shape(s)
  {
    && (pc.FWantFirst? || pc.FWantSecond? || pc.FHas? || pc.FWriting? ==> pc.f < pc.s)
    && (pc.FWantPrint? || pc.FPrinting? || pc.FReleaseFirst? ==> pc.f < pc.s)
    && (pc.FWriting? ==> pc.k <= 3 && !s.cut[pc.f] && !s.cut[pc.s])
    && (pc.CWantPrint? || pc.CPrinting? || pc.CReleasing? ==> s.cut[pc.r])
  }

  ghost predicate LocksOk(s: Sys) {
    forall t: Thread, l: Lock :: l in s.holder && s.holder[l] == t <==> t in s.pc && l in Held(s.pc[t])
  }

  ghost predicate CountOk(s: Sys) {
    s.left == |Uncut(s.cut)| + |Pending(s.pc)|
  }

  // While a balloon sleeps no cutter has left its loop; a balloon that escaped saw zero.
  ghost predicate BalloonOk(s: Sys) {
    && (forall t: Thread, u: Thread | t in s.pc && u in s.pc && s.pc[t].BAsleep? :: !s.pc[u].CFinished?)
    && (forall t: Thread | t in s.pc && (s.pc[t].CFinished? || s.pc[t].FFinished? || s.pc[t].BEscaped?) :: s.left == 0)
  }

  ghost predicate SysOk(s: Sys) {
    && Shape(s) && LocksOk(s) && CountOk(s) && BalloonOk(s)
    && (forall t: Thread | t in s.pc :: PcOk(s, s.pc[t]))
  }

  // ---------------------------------------------------------------- each step keeps the invariant

  // Thread t dropped the locks ls it held, or none, and moved; the others hold what they held.
  lemma LocksDrop(s: Sys, s': Sys, t: Thread, ls: set<Lock>)
    requires LocksOk(s) && t in s.pc && t in s'.pc && ls <= Held(s.pc[t])
    requires s'.holder == s.holder - ls && Held(s'.pc[t]) == Held(s.pc[t]) - ls
    requires s'.pc.Keys == s.pc.Keys && forall u: Thread | u in s.pc && u != t :: Held(s'.pc[u]) == Held(s.pc[u])
    ensures LocksOk(s')
  {
    hide Held;
    forall u: Thread, l: Lock
      ensures l in s'.holder && s'.holder[l] == u <==> u in s'.pc && l in Held(s'.pc[u])
    {
      assert l in s.holder && s.holder[l] == u <==> u in s.pc && l in Held(s.pc[u]);
      assert l in s.holder && s.holder[l] == t <==> t in s.pc && l in Held(s.pc[t]);
    }
  }

  lemma LocksTake(s: Sys, s': Sys, t: Thread, l: Lock)
    requires LocksOk(s) && t in s.pc && l !in s.holder && s'.holder == s.holder[l := t]
    requires t in s'.pc && s'.pc == s.pc[t := s'.pc[t]] && Held(s'.pc[t]) == Held(s.pc[t]) + {l}
    ensures LocksOk(s')
  {
    hide Held;
    forall u: Thread, k: Lock
      ensures k in s'.holder && s'.holder[k] == u <==> u in s'.pc && k in Held(s'.pc[u])
    {
      assert k in s.holder && s.holder[k] == u <==> u in s.pc && k in Held(s.pc[u]);
    }
  }

  lemma GrantedHeld(pc: Pc)
    requires Wants(pc).Some?
    ensures Held(Granted(pc)) == Held(pc) + {Wants(pc).value}
    ensures Uncounted(Granted(pc)) <==> Uncounted(pc)
    ensures !Granted(pc).BAsleep? && !Granted(pc).CFinished? && !Granted(pc).FFinished? && !Granted(pc).BEscaped?
  {}

  // Counting does not change when a thread moves without cutting or counting.
  lemma PendingSame(pc: map<Thread, Pc>, pc': map<Thread, Pc>)
    requires pc'.Keys == pc.Keys && forall t: Thread | t in pc :: Uncounted(pc'[t]) <==> Uncounted(pc[t])
    ensures Pending(pc') == Pending(pc)
  {}

  // A balloon's safety only depends on who sleeps, who is out, and the count.
  lemma BalloonSame(s: Sys, s': Sys, t: Thread)
    requires BalloonOk(s) && s'.left == s.left && t in s.pc && t in s'.pc && s'.pc == s.pc[t := s'.pc[t]]
    requires !s'.pc[t].BAsleep? && !s'.pc[t].CFinished?
    requires s'.pc[t].FFinished? || s'.pc[t].BEscaped? ==> s.left == 0
    ensures BalloonOk(s')
  {}

  lemma AcquireKeeps(s: Sys, s': Sys, t: Thread, a: Action)
    requires SysOk(s) && t in s.pc && AcquireStep(s, s', t, a)
    ensures SysOk(s')
  {
    var pc := s.pc[t];
    GrantedHeld(pc);
    assert PcOk(s, pc);
    hide LocksOk, CountOk, BalloonOk;
    assert LocksOk(s') by {
      hide Held, Granted, Wants;
      LocksTake(s, s', t, Wants(pc).value);
    }
    assert BalloonOk(s') by {
      hide Held, Granted, Wants, PcOk;
      BalloonSame(s, s', t);
    }
    assert CountOk(s') by {
      hide Held, Wants, PcOk;
      CountSame(s, s');
    }
    hide Held, LocksOk;
    forall u: Thread | u in s'.pc
      ensures PcOk(s', s'.pc[u])
    {
      assert PcOk(s, s.pc[u]);
    }
  }

  lemma CountSame(s: Sys, s': Sys)
    requires CountOk(s) && s'.left == s.left && s'.cut == s.cut && s'.pc.Keys == s.pc.Keys
    requires forall t: Thread | t in s.pc :: Uncounted(s'.pc[t]) <==> Uncounted(s.pc[t])
    ensures CountOk(s')
  {
    hide Uncounted;
    PendingSame(s.pc, s'.pc);
  }

  // A thread moves on, dropping the locks ls; nothing is cut or counted.
  lemma MoveKeeps(s: Sys, s': Sys, t: Thread, ls: set<Lock>)
    requires SysOk(s) && t in s.pc && t in s'.pc && Shape(s') && s'.cut == s.cut && s'.left == s.left
    requires s'.pc == s.pc[t := s'.pc[t]] && s'.holder == s.holder - ls && ls <= Held(s.pc[t])
             && Held(s'.pc[t]) == Held(s.pc[t]) - ls
    requires (Uncounted(s'.pc[t]) <==> Uncounted(s.pc[t])) && PcOk(s', s'.pc[t])
    requires !s'.pc[t].BAsleep? && !s'.pc[t].CFinished? && (s'.pc[t].FFinished? || s'.pc[t].BEscaped? ==> s.left == 0)
    ensures SysOk(s')
  {
    hide LocksOk, CountOk, BalloonOk, Held, Uncounted;
    LocksDrop(s, s', t, ls);
    CountSame(s, s');
    BalloonSame(s, s', t);
    forall u: Thread | u in s'.pc
      ensures PcOk(s', s'.pc[u])
    {
      assert PcOk(s, s.pc[u]);
    }
  }

  // Moves of a cutter that drop a lock: after a look, a refusal, a print or a cut.
  lemma CutterDrops(s: Sys, s': Sys, t: Thread, pc': Pc, l: Lock)
    requires SysOk(s) && t in s.pc && s' == s.(holder := s.holder - {l}, pc := s.pc[t := pc'])
    requires var pc := s.pc[t];
             || (pc.CCheck? && pc' == CChoose && l == CountLock)
             || (pc.CHas? && pc' == CTop && l == RopeLock(pc.r))
             || (pc.CPrinting? && pc' == CReleasing(pc.r) && l == PrintLock)
             || (pc.CReleasing? && pc' == CWantCount && l == RopeLock(pc.r))
    ensures SysOk(s')
  {
    assert PcOk(s, s.pc[t]);
    hide LocksOk, CountOk, BalloonOk, SysOk;
    MoveKeeps(s, s', t, {l});
  }

  lemma CutterChooses(s: Sys, s': Sys, t: Thread, r: Rope, stake: Option<Rope>)
    requires SysOk(s) && t in s.pc && s.pc[t].CChoose? && s' == s.(pc := s.pc[t := CWant(r, stake)])
    ensures SysOk(s')
  {
    assert s.holder - {} == s.holder;
    hide LocksOk, CountOk, BalloonOk;
    assert PcOk(s', CWant(r, stake));
    hide SysOk, PcOk;
    MoveKeeps(s, s', t, {});
  }

  lemma SwapperLets(pc: Pc, pc': Pc, l: Lock)
    requires || (pc.FCheck? && l == CountLock && (pc' == FChoose || pc' == FFinished))
             || (pc.FPrinting? && pc' == FReleaseFirst(pc.f, pc.s) && l == PrintLock)
             || (pc.FReleaseFirst? && pc' == FReleaseSecond(pc.s) && l == RopeLock(pc.f) && pc.f != pc.s)
             || (pc.FReleaseSecond? && pc' == FTop && l == RopeLock(pc.s))
    ensures Held(pc') == Held(pc) - {l} && l in Held(pc)
  {}

  lemma SwapperDrops(s: Sys, s': Sys, t: Thread, pc': Pc, l: Lock)
    requires SysOk(s) && t in s.pc && s' == s.(holder := s.holder - {l}, pc := s.pc[t := pc'])
    requires var pc := s.pc[t];
             || (pc.FCheck? && l == CountLock && (pc' == FChoose || (pc' == FFinished && s.left == 0)))
             || (pc.FPrinting? && pc' == FReleaseFirst(pc.f, pc.s) && l == PrintLock)
             || (pc.FReleaseFirst? && pc' == FReleaseSecond(pc.s) && l == RopeLock(pc.f))
             || (pc.FReleaseSecond? && pc' == FTop && l == RopeLock(pc.s))
    ensures SysOk(s')
  {
    assert PcOk(s, s.pc[t]);
    hide LocksOk, CountOk, BalloonOk, SysOk;
    SwapperLets(s.pc[t], pc', l);
    hide Held;
    MoveKeeps(s, s', t, {l});
  }

  lemma SwapperChooses(s: Sys, s': Sys, t: Thread, pc': Pc)
    requires SysOk(s) && t in s.pc && s' == s.(pc := s.pc[t := pc'])
    requires (s.pc[t].FChoose? && pc'.FRead?) || (s.pc[t].FRead? && (pc'.FTop? || (pc'.FWantFirst? && pc'.f < pc'.s)))
    ensures SysOk(s')
  {
    assert s.holder - {} == s.holder;
    hide LocksOk, CountOk, BalloonOk;
    assert PcOk(s', pc');
    hide SysOk, PcOk;
    MoveKeeps(s, s', t, {});
  }

  // Between looking at two locked ropes and the last of the four writes.
  lemma SwapperWrites(s: Sys, s': Sys, t: Thread, pc': Pc)
    requires SysOk(s) && t in s.pc && (s.pc[t].FHas? || s.pc[t].FWriting?) && Shape(s')
    requires s' == s.(pc := s.pc[t := pc'], ropeOfStake := s'.ropeOfStake, stakeOfRope := s'.stakeOfRope)
    requires var pc := s.pc[t];
             && (pc'.FReleaseFirst? || pc'.FWriting? || pc'.FWantPrint?) && pc'.f == pc.f && pc'.s == pc.s
             && (pc'.FWriting? ==> pc'.k <= 3 && !s.cut[pc.f] && !s.cut[pc.s])
    ensures SysOk(s')
  {
    assert PcOk(s, s.pc[t]);
    assert s.holder - {} == s.holder;
    hide LocksOk, CountOk, BalloonOk;
    assert PcOk(s', pc');
    hide SysOk, PcOk;
    MoveKeeps(s, s', t, {});
  }

  lemma SwapperKeeps(s: Sys, s': Sys, t: Thread, a: Action)
    requires SysOk(s) && t in s.pc && SwapperStep(s, s', t, a)
    ensures SysOk(s')
  {
    var pc := s.pc[t];
    assert PcOk(s, pc);
    hide SysOk;
    match a
    case Check => SwapperDrops(s, s', t, s'.pc[t], CountLock);
    case EndPrint => SwapperDrops(s, s', t, s'.pc[t], PrintLock);
    case Release => SwapperDrops(s, s', t, s'.pc[t], if pc.FReleaseFirst? then RopeLock(pc.f) else RopeLock(pc.s));
    case ChooseTwo(_, _) => SwapperChooses(s, s', t, s'.pc[t]);
    case ReadSecond => SwapperChooses(s, s', t, s'.pc[t]);
    case Look => SwapperWrites(s, s', t, s'.pc[t]);
    case WriteOne => SwapperWrites(s, s', t, s'.pc[t]);
  }

  lemma BalloonKeeps(s: Sys, s': Sys, t: Thread, a: Action)
    requires SysOk(s) && t in s.pc && BalloonStep(s, s', t, a)
    ensures SysOk(s')
  {
    assert PcOk(s, s.pc[t]);
    if s.left > 0 {
      SleepKeeps(s, s', t);
    } else {
      assert s.left == 0;
      hide LocksOk, CountOk, BalloonOk, SysOk;
      MoveKeeps(s, s', t, {CountLock});
    }
  }

  // The balloon goes to sleep while ropes are left, so no cutter is out of its loop.
  lemma SleepKeeps(s: Sys, s': Sys, t: Thread)
    requires SysOk(s) && t in s.pc && s.pc[t].BCheck? && s.left > 0
    requires s' == s.(holder := s.holder - {CountLock}, pc := s.pc[t := BAsleep])
    ensures SysOk(s')
  {
    assert BalloonOk(s');
    hide BalloonOk, LocksOk, CountOk;
    LocksDrop(s, s', t, {CountLock});
    CountSame(s, s');
    forall u: Thread | u in s'.pc
      ensures PcOk(s', s'.pc[u])
    {
      assert PcOk(s, s.pc[u]);
    }
  }

  // What a broadcast does to one thread.
  function Wake(pc: Pc): Pc {
    if pc.BAsleep? then BWoken else pc
  }

  lemma WakeSame(s: Sys, pc: Pc)
    requires Shape(s)
    ensures Held(Wake(pc)) == Held(pc) && (Uncounted(Wake(pc)) <==> Uncounted(pc)) && !Wake(pc).BAsleep?
    ensures PcOk(s, pc) ==> PcOk(s, Wake(pc))
  {}

  // The last look of a cutter: it wakes every sleeping balloon and leaves.
  lemma FinishKeeps(s: Sys, s': Sys, t: Thread)
    requires SysOk(s) && t in s.pc && s.pc[t].CCheck? && s.left == 0
    requires s' == s.(holder := s.holder - {CountLock}, pc := Broadcast(s)[t := CFinished])
    ensures SysOk(s')
  {
    assert s'.pc.Keys == s.pc.Keys;
    assert Held(CFinished) == {} && Held(s.pc[t]) == {CountLock} && !Uncounted(CFinished) && !Uncounted(s.pc[t]);
    assert PcOk(s', CFinished);
    hide LocksOk, CountOk, BalloonOk, Held, Uncounted;
    forall u: Thread | u in s.pc && u != t
      ensures s'.pc[u] == Wake(s.pc[u]) && Held(s'.pc[u]) == Held(s.pc[u]) && (Uncounted(s'.pc[u]) <==>
                Uncounted(s.pc[u]))
      ensures !s'.pc[u].BAsleep? && PcOk(s', s'.pc[u])
    {
      WakeSame(s, s.pc[u]);
      assert PcOk(s, s.pc[u]);
    }
    hide PcOk, Broadcast;
    LocksDrop(s, s', t, {CountLock});
    CountSame(s, s');
    NoSleeper(s');
  }

  // With nobody asleep and nothing left, the balloon part of the invariant is plain.
  lemma NoSleeper(s: Sys)
    requires s.left == 0 && forall u: Thread | u in s.pc :: !s.pc[u].BAsleep?
    ensures BalloonOk(s)
  {}

  // Cutting: one uncut rope less, one uncounted cut more, under the rope's lock.
  lemma CutKeeps(s: Sys, s': Sys, t: Thread, r: Rope)
    requires SysOk(s) && t in s.pc && s.pc[t].CHas? && s.pc[t].r == r && !s.cut[r]
    requires s' == s.(cut := s.cut[r := true], pc := s.pc[t := CWantPrint(r)])
    ensures SysOk(s')
  {
    assert Held(s'.pc[t]) == Held(s.pc[t]) == {RopeLock(r)};
    assert s.holder - {} == s.holder;
    CutOnce(s, s', t, r);
    hide CountOk, BalloonOk;
    forall u: Thread | u in s'.pc
      ensures PcOk(s', s'.pc[u])
    {
      assert PcOk(s, s.pc[u]);
      CutOther(s, t, u, r);
    }
    hide LocksOk, Held, PcOk;
    LocksDrop(s, s', t, {});
  }

  lemma CutOnce(s: Sys, s': Sys, t: Thread, r: Rope)
    requires Shape(s) && CountOk(s) && BalloonOk(s) && t in s.pc && s.pc[t].CHas? && !s.cut[r]
    requires s'.left == s.left && s'.cut == s.cut[r := true] && s'.pc == s.pc[t := CWantPrint(r)]
    ensures CountOk(s') && BalloonOk(s')
  {
    assert Uncut(s'.cut) == Uncut(s.cut) - {r} && r in Uncut(s.cut);
    assert Pending(s'.pc) == Pending(s.pc) + {t} && t !in Pending(s.pc);
  }

  // A thread that is writing under the rope's lock is not another one than its holder.
  lemma CutOther(s: Sys, t: Thread, u: Thread, r: Rope)
    requires LocksOk(s) && t in s.pc && u in s.pc && RopeLock(r) in Held(s.pc[t])
    ensures t != u ==> RopeLock(r) !in Held(s.pc[u])
  {
    hide Held;
    if t != u {
      assert s.holder[RopeLock(r)] == t;
    }
  }

  lemma CountKeeps(s: Sys, s': Sys, t: Thread)
    requires SysOk(s) && t in s.pc && s.pc[t].CCounting?
    requires s' == s.(left := s.left - 1, holder := s.holder - {CountLock}, pc := s.pc[t := CTop])
    ensures SysOk(s')
  {
    assert Held(CTop) == {} && Held(s.pc[t]) == {CountLock} && PcOk(s', CTop);
    CountDown(s, s', t);
    hide LocksOk, Held, CountOk, BalloonOk;
    LocksDrop(s, s', t, {CountLock});
    forall u: Thread | u in s'.pc
      ensures PcOk(s', s'.pc[u])
    {
      assert PcOk(s, s.pc[u]);
    }
  }

  lemma CountDown(s: Sys, s': Sys, t: Thread)
    requires CountOk(s) && BalloonOk(s) && t in s.pc && s.pc[t].CCounting?
    requires s'.left == s.left - 1 && s'.cut == s.cut && s'.pc == s.pc[t := CTop]
    ensures CountOk(s') && BalloonOk(s')
  {
    assert t in Pending(s.pc);
    assert Pending(s'.pc) == Pending(s.pc) - {t};
    assert s.left > 0;
  }

  lemma CutterKeeps(s: Sys, s': Sys, t: Thread, a: Action)
    requires SysOk(s) && t in s.pc && CutterStep(s, s', t, a)
    ensures SysOk(s')
  {
    hide SysOk, Broadcast;
    assert Shape(s) by {
      ShapeOf(s);
    }
    if a.Check? && s.left == 0 {
      FinishKeeps(s, s', t);
    } else if a.Cut? && !Refused(s, s.pc[t]) {
      CutKeeps(s, s', t, s.pc[t].r);
    } else if a.Count? {
      CountKeeps(s, s', t);
    } else if a.ChooseHook? || a.ChooseStake? {
      CutterChooses(s, s', t, s'.pc[t].r, s'.pc[t].stake);
    } else {
      CutterDrops(s, s', t, s'.pc[t], if a.Check? then CountLock else if a.EndPrint? then PrintLock
        else RopeLock(s.pc[t].r));
    }
  }

  lemma ShapeOf(s: Sys)
    requires SysOk(s)
    ensures Shape(s)
  {}

  // Every step of any thread keeps the invariant.
  lemma StepKeeps(s: Sys, s': Sys, t: Thread, a: Action)
    requires SysOk(s) && Step(s, s', t, a)
    ensures SysOk(s')
  {
    hide SysOk, CutterStep, SwapperStep, BalloonStep, AcquireStep;
    if CutterStep(s, s', t, a) {
      CutterKeeps(s, s', t, a);
    } else if SwapperStep(s, s', t, a) {
      SwapperKeeps(s, s', t, a);
    } else if BalloonStep(s, s', t, a) {
      BalloonKeeps(s, s', t, a);
    } else {
      AcquireKeeps(s, s', t, a);
    }
  }

  // ---------------------------------------------------------------- runs

  const N_LORD_FLOWERKILLER := 8

  // Threads that have just been forked.
  predicate AtTop(pcs: map<Thread, Pc>) {
    forall t: Thread | t in pcs :: pcs[t].CTop? || pcs[t].FTop? || pcs[t].BTop?
  }

  // The threads airballoon forks: Marigold and Dandelion, the FlowerKillers, the balloon.
  function Forked(): (pcs: map<Thread, Pc>)
    ensures AtTop(pcs) && 0 in pcs && pcs[0].CTop? && 2 in pcs && pcs[2].FTop? && 3 in pcs && pcs[3].FTop?
  {
    map t: Thread | t < N_LORD_FLOWERKILLER + 3 :: Role(t)
  }

  function Role(t: Thread): Pc {
    if t < 2 then CTop else if t < N_LORD_FLOWERKILLER + 2 then FTop else BTop
  }

  // airballoon_init: rope i on stake i, nothing cut, every thread at its start.
  ghost predicate Init(s: Sys) {
    && Shape(s) && s.left == NROPES && s.holder == map[]
    && (forall r: Rope :: !s.cut[r] && s.ropeOfStake[r] == r && s.stakeOfRope[r] == r)
    && AtTop(s.pc)
  }

  lemma InitOk(s: Sys)
    requires Init(s)
    ensures SysOk(s)
  {
    assert Pending(s.pc) == {};
    AllUncut(s.cut);
  }

  lemma {:induction false} AllUncut(cut: seq<bool>)
    requires forall r | 0 <= r < |cut| :: !cut[r]
    ensures |Uncut(cut)| == |cut|
  {
    if |cut| > 0 {
      var n := |cut| - 1;
      AllUncut(cut[..n]);
      assert Uncut(cut) == Uncut(cut[..n]) + {n};
    }
  }

  ghost predicate Run(states: seq<Sys>, acts: seq<(Thread, Action)>) {
    && |states| == |acts| + 1 && Init(states[0])
    && forall i | 0 <= i < |acts| :: Step(states[i], states[i + 1], acts[i].0, acts[i].1)
  }

  lemma {:induction false} RunOk(states: seq<Sys>, acts: seq<(Thread, Action)>, n: nat)
    requires Run(states, acts) && n <= |acts|
    ensures SysOk(states[n])
  {
    hide SysOk, Step, Init;
    if n == 0 {
      InitOk(states[0]);
    } else {
      RunOk(states, acts, n - 1);
      StepKeeps(states[n - 1], states[n], acts[n - 1].0, acts[n - 1].1);
    }
  }

  /**
   At every point of every run, ropes_left is the number of uncut ropes plus the cuts not yet
   counted; so a balloon that has escaped, or any thread that has left its loop, left after
   every rope was cut.
   */
  lemma RopesLeft(states: seq<Sys>, acts: seq<(Thread, Action)>, n: nat, t: Thread)
    requires Run(states, acts) && n <= |acts|
    ensures var s := states[n];
            && s.left == |Uncut(s.cut)| + |Pending(s.pc)|
            && (t in s.pc && (s.pc[t].BEscaped? || s.pc[t].CFinished? || s.pc[t].FFinished?)
              ==> forall r | 0 <= r < |s.cut| :: s.cut[r])
  {
    hide Step, Init, LocksOk, PcOk;
    RunOk(states, acts, n);
    var s := states[n];
    if t in s.pc && (s.pc[t].BEscaped? || s.pc[t].CFinished? || s.pc[t].FFinished?) {
      assert Uncut(s.cut) == {};
      forall r | 0 <= r < |s.cut|
        ensures s.cut[r]
      {
        assert r !in Uncut(s.cut);
      }
    }
  }

  // A thread that cuts stays a thread that cuts, and only such a thread cuts.
  lemma RolesStay(s: Sys, s': Sys, t: Thread, a: Action)
    requires Step(s, s', t, a)
    ensures forall u: Thread | u in s.pc && IsCutter(s.pc[u]) :: u in s'.pc && IsCutter(s'.pc[u])
    ensures s'.cut == s.cut || IsCutter(s.pc[t])
  {
    hide Held;
  }

  lemma {:induction false} SomeoneCut(states: seq<Sys>, acts: seq<(Thread, Action)>, n: nat,
        r: Rope) returns (c: Thread)
    requires Run(states, acts) && n <= |acts| && Shape(states[n]) && states[n].cut[r]
    ensures c in states[n].pc && IsCutter(states[n].pc[c])
  {
    hide SysOk, Step, IsCutter;
    if n == 0 {
      assert false;
    } else {
      RunOk(states, acts, n - 1);
      ShapeOf(states[n - 1]);
      RolesStay(states[n - 1], states[n], acts[n - 1].0, acts[n - 1].1);
      if states[n - 1].cut[r] {
        c := SomeoneCut(states, acts, n - 1, r);
      } else {
        c := acts[n - 1].0;
        ActsHere(states[n - 1], states[n], c, acts[n - 1].1);
      }
    }
  }

  lemma ActsHere(s: Sys, s': Sys, t: Thread, a: Action)
    requires Step(s, s', t, a)
    ensures t in s.pc
  {}

  /**
   No lost wakeup: at every point of every run, while a balloon sleeps no cutter has left its
   loop; and if nothing is left to cut, there is a cutter, which will broadcast when it finds out.
   */
  lemma BroadcastDue(states: seq<Sys>, acts: seq<(Thread, Action)>, n: nat, b: Thread)
    requires Run(states, acts) && n <= |acts| && b in states[n].pc && states[n].pc[b].BAsleep?
    ensures forall c: Thread | c in states[n].pc && IsCutter(states[n].pc[c]) :: !states[n].pc[c].CFinished?
    ensures states[n].left == 0 ==>
              exists c: Thread :: c in states[n].pc && IsCutter(states[n].pc[c]) && !states[n].pc[c].CFinished?
  {
    hide Step, Init, LocksOk, PcOk, IsCutter;
    RunOk(states, acts, n);
    var s := states[n];
    if s.left == 0 {
      assert Uncut(s.cut) == {};
      assert s.cut[0] by {
        assert 0 !in Uncut(s.cut);
      }
      var c := SomeoneCut(states, acts, n, 0);
    }
  }

  // A severed rope stays severed and stays on its stake.
  lemma SeveredStep(s: Sys, s': Sys, t: Thread, a: Action, r: Rope)
    requires SysOk(s) && Step(s, s', t, a) && s.cut[r]
    ensures Shape(s') && s'.cut[r] && s'.stakeOfRope[r] == s.stakeOfRope[r]
  {
    hide LocksOk, CountOk, BalloonOk, Held, Granted, Broadcast;
    assert PcOk(s, s.pc[t]);
  }

  lemma {:induction false} SeveredForGood(states: seq<Sys>, acts: seq<(Thread, Action)>, i: nat, j: nat, r: Rope)
    requires Run(states, acts) && i <= j <= |acts| && Shape(states[i]) && states[i].cut[r]
    ensures Shape(states[j]) && states[j].cut[r] && states[j].stakeOfRope[r] == states[i].stakeOfRope[r]
  {
    hide SysOk, Step, Init;
    if i < j {
      SeveredForGood(states, acts, i, j - 1, r);
      RunOk(states, acts, j - 1);
      SeveredStep(states[j - 1], states[j], acts[j - 1].0, acts[j - 1].1, r);
    }
  }

  // Step i severs rope r.
  predicate Severs(s: Sys, s': Sys, r: Rope) {
    Shape(s) && Shape(s') && !s.cut[r] && s'.cut[r]
  }

  /**
   In every run each rope is severed at most once, and from then on its stake never changes.
   */
  lemma SeveredOnce(states: seq<Sys>, acts: seq<(Thread, Action)>, i: nat, j: nat, r: Rope)
    requires Run(states, acts) && i < j < |acts| && Severs(states[i], states[i + 1], r)
    ensures !Severs(states[j], states[j + 1], r) && Shape(states[j])
            && states[j].stakeOfRope[r] == states[i + 1].stakeOfRope[r]
  {
    hide SysOk, Step, Init;
    SeveredForGood(states, acts, i + 1, j, r);
  }

  // ---------------------------------------------------------------- no deadlock among locks

  // Ropes in ascending order, then the print lock; the count lock is only ever taken alone.
  function Rank(l: Lock): nat {
    match l
    case CountLock => 0
    case RopeLock(r) => r + 1
    case PrintLock => NROPES + 1
  }

  // t is in lock_acquire for a lock that u holds.
  predicate WaitsFor(s: Sys, t: Thread, u: Thread) {
    t in s.pc && Wants(s.pc[t]).Some? && Wants(s.pc[t]).value in s.holder && s.holder[Wants(s.pc[t]).value] == u
  }

  lemma Ascending(s: Sys, t: Thread, u: Thread)
    requires SysOk(s) && WaitsFor(s, t, u) && Wants(s.pc[t]).Some? && u in s.pc && Wants(s.pc[u]).Some?
    ensures Rank(Wants(s.pc[t]).value) < Rank(Wants(s.pc[u]).value)
  {
    hide CountOk, BalloonOk;
    var l := Wants(s.pc[t]).value;
    assert l in Held(s.pc[u]);
    assert PcOk(s, s.pc[u]);
  }

  lemma {:induction false} ChainAscends(s: Sys, chain: seq<Thread>)
    requires SysOk(s) && |chain| >= 2
    requires forall i | 0 <= i < |chain| - 1 :: WaitsFor(s, chain[i], chain[i + 1])
    requires chain[|chain| - 1] in s.pc && Wants(s.pc[chain[|chain| - 1]]).Some?
    ensures chain[0] in s.pc && Wants(s.pc[chain[0]]).Some?
    ensures Rank(Wants(s.pc[chain[0]]).value) < Rank(Wants(s.pc[chain[|chain| - 1]]).value)
  {
    hide SysOk, Rank, Wants;
    var n := |chain|;
    if n == 2 {
      Ascending(s, chain[0], chain[1]);
    } else {
      var rest := chain[1..];
      assert WaitsFor(s, chain[0], chain[1]) && WaitsFor(s, chain[1], chain[2]);
      forall i | 0 <= i < |rest| - 1
        ensures WaitsFor(s, rest[i], rest[i + 1])
      {
        assert WaitsFor(s, chain[i + 1], chain[i + 2]);
      }
      ChainAscends(s, rest);
      Ascending(s, chain[0], chain[1]);
    }
  }

  /**
   At no point of any run is there a cycle of threads each waiting for a lock the next one holds.
   */
  lemma NoDeadlock(states: seq<Sys>, acts: seq<(Thread, Action)>, n: nat, cycle: seq<Thread>)
    requires Run(states, acts) && n <= |acts| && |cycle| >= 2 && cycle[0] == cycle[|cycle| - 1]
    ensures exists i | 0 <= i < |cycle| - 1 :: !WaitsFor(states[n], cycle[i], cycle[i + 1])
  {
    hide SysOk, Step, Init, Rank;
    RunOk(states, acts, n);
    var s := states[n];
    if forall i | 0 <= i < |cycle| - 1 :: WaitsFor(s, cycle[i], cycle[i + 1]) {
      assert WaitsFor(s, cycle[0], cycle[1]);
      ChainAscends(s, cycle);
      assert false;
    }
  }

  // ---------------------------------------------------------------- progress

  predicate Finished(pc: Pc) {
    pc.CFinished? || pc.FFinished? || pc.BEscaped?
  }

  ghost predicate CanStep(s: Sys, t: Thread) {
    exists s': Sys, a: Action :: Step(s, s', t, a)
  }

  // A thread that is neither out of its loop nor asleep nor waiting for a lock takes its next step.
  lemma Moves(s: Sys, t: Thread)
    requires Shape(s) && t in s.pc && !Finished(s.pc[t]) && !s.pc[t].BAsleep? && Wants(s.pc[t]).None?
    ensures CanStep(s, t)
  {
    if IsCutter(s.pc[t]) {
      CutterMoves(s, t);
    } else {
      SwapperMoves(s, t);
    }
  }

  lemma CutterMoves(s: Sys, t: Thread)
    requires Shape(s) && t in s.pc && IsCutter(s.pc[t]) && !s.pc[t].CFinished? && Wants(s.pc[t]).None?
    ensures CanStep(s, t)
  {
    hide Broadcast, SwapperStep, BalloonStep, AcquireStep, Held;
    var pc := s.pc[t];
    var s', a;
    if pc.CCheck? {
      a, s' := Check, s.(holder := Dropped(s, {CountLock}),
                         pc := if s.left == 0 then Broadcast(s)[t := CFinished] else s.pc[t := CChoose]);
    } else if pc.CChoose? {
      a, s' := ChooseHook(0), s.(pc := s.pc[t := CWant(0, None)]);
    } else if pc.CHas? {
      a := Cut;
      s' := if Refused(s, pc) then s.(holder := Dropped(s, {RopeLock(pc.r)}), pc := s.pc[t := CTop])
            else s.(cut := s.cut[pc.r := true], pc := s.pc[t := CWantPrint(pc.r)]);
    } else if pc.CPrinting? {
      a, s' := EndPrint, s.(holder := Dropped(s, {PrintLock}), pc := s.pc[t := CReleasing(pc.r)]);
    } else if pc.CReleasing? {
      a, s' := Release, s.(holder := Dropped(s, {RopeLock(pc.r)}), pc := s.pc[t := CWantCount]);
    } else {
      a, s' := Count, s.(left := s.left - 1, holder := Dropped(s, {CountLock}), pc := s.pc[t := CTop]);
    }
    assert CutterStep(s, s', t, a);
    assert Step(s, s', t, a);
  }

  lemma SwapperMoves(s: Sys, t: Thread)
    requires Shape(s) && t in s.pc && !IsCutter(s.pc[t]) && Wants(s.pc[t]).None?
    requires !Finished(s.pc[t]) && !s.pc[t].BAsleep?
    ensures CanStep(s, t)
  {
    hide CutterStep, AcquireStep, Held;
    var pc := s.pc[t];
    var s', a;
    if pc.BCheck? {
      a, s' := Check, s.(holder := Dropped(s, {CountLock}), pc := s.pc[t := if s.left > 0 then BAsleep else BEscaped]);
    } else if pc.FCheck? {
      a := Check;
      s' := s.(holder := Dropped(s, {CountLock}), pc := s.pc[t := if s.left == 0 then FFinished else FChoose]);
    } else if pc.FChoose? {
      a, s' := ChooseTwo(0, 0), s.(pc := s.pc[t := FRead(0, 0, s.ropeOfStake[0])]);
    } else if pc.FRead? {
      var g, h := pc.got, s.ropeOfStake[pc.second];
      a, s' := ReadSecond, s.(pc := s.pc[t :=
        if g == h then FTop
        else if h < g then FWantFirst(h, g, pc.second, pc.first)
        else FWantFirst(g, h, pc.first, pc.second)]);
    } else if pc.FHas? {
      a := Look;
      s' := s.(pc := s.pc[t := if s.cut[pc.f] || s.cut[pc.s] then FReleaseFirst(pc.f, pc.s)
                               else FWriting(pc.f, pc.s, pc.first, pc.second, 0)]);
    } else if pc.FWriting? {
      a := WriteOne;
      s' := Written(s, pc).(pc := s.pc[t := if pc.k < 3 then pc.(k := pc.k + 1) else FWantPrint(pc.f, pc.s)]);
    } else if pc.FPrinting? {
      a, s' := EndPrint, s.(holder := Dropped(s, {PrintLock}), pc := s.pc[t := FReleaseFirst(pc.f, pc.s)]);
    } else if pc.FReleaseFirst? {
      a, s' := Release, s.(holder := Dropped(s, {RopeLock(pc.f)}), pc := s.pc[t := FReleaseSecond(pc.s)]);
    } else {
      a, s' := Release, s.(holder := Dropped(s, {RopeLock(pc.s)}), pc := s.pc[t := FTop]);
    }
    assert SwapperStep(s, s', t, a) || BalloonStep(s, s', t, a);
    assert Step(s, s', t, a);
  }

  // From a thread that wants a lock, following the holders upwards leads to one that can move.
  lemma {:induction false} HolderMoves(s: Sys, t: Thread) returns (u: Thread)
    requires SysOk(s) && t in s.pc && !Finished(s.pc[t]) && !s.pc[t].BAsleep?
    ensures CanStep(s, u)
    decreases NROPES + 2 - (if Wants(s.pc[t]).Some? then Rank(Wants(s.pc[t]).value) else NROPES + 2)
  {
    ShapeOf(s);
    if Wants(s.pc[t]).None? {
      Moves(s, t);
      u := t;
    } else if Wants(s.pc[t]).value !in s.holder {
      var l := Wants(s.pc[t]).value;
      var s' := s.(holder := s.holder[l := t], pc := s.pc[t := Granted(s.pc[t])]);
      assert AcquireStep(s, s', t, Acquire);
      assert Step(s, s', t, Acquire);
      u := t;
    } else {
      var v := s.holder[Wants(s.pc[t]).value];
      HolderAwake(s, Wants(s.pc[t]).value);
      if Wants(s.pc[v]).Some? {
        Ascending(s, t, v);
      }
      u := HolderMoves(s, v);
    }
  }

  lemma HolderAwake(s: Sys, l: Lock)
    requires SysOk(s) && l in s.holder
    ensures var u := s.holder[l]; u in s.pc && !Finished(s.pc[u]) && !s.pc[u].BAsleep?
  {
    hide CountOk, BalloonOk, PcOk;
    assert l in Held(s.pc[s.holder[l]]);
  }

  /**
   Nobody gets stuck: at every point of every run that has a cutter, either every thread is out of
   its loop or some thread can take a step.
   */
  lemma Progress(states: seq<Sys>, acts: seq<(Thread, Action)>, n: nat, c: Thread)
    requires Run(states, acts) && n <= |acts| && c in states[0].pc && IsCutter(states[0].pc[c])
    ensures || (forall t: Thread | t in states[n].pc :: Finished(states[n].pc[t]))
            || (exists t: Thread :: CanStep(states[n], t))
  {
    hide Step, SysOk, Init, IsCutter, CanStep;
    RunOk(states, acts, n);
    var s := states[n];
    if t: Thread :| t in s.pc && !Finished(s.pc[t]) {
      var u := t;
      if s.pc[t].BAsleep? {
        StillCutter(states, acts, n, c);
        BroadcastDue(states, acts, n, t);
        u := c;
        NotFinished(s.pc[c]);
      }
      var v := HolderMoves(s, u);
    }
  }

  lemma NotFinished(pc: Pc)
    requires IsCutter(pc) && !pc.CFinished?
    ensures !Finished(pc) && !pc.BAsleep?
  {}

  lemma {:induction false} StillCutter(states: seq<Sys>, acts: seq<(Thread, Action)>, n: nat, c: Thread)
    requires Run(states, acts) && n <= |acts| && c in states[0].pc && IsCutter(states[0].pc[c])
    ensures c in states[n].pc && IsCutter(states[n].pc[c])
  {
    hide Step, Init, IsCutter;
    if n > 0 {
      StillCutter(states, acts, n - 1, c);
      RolesStay(states[n - 1], states[n], acts[n - 1].0, acts[n - 1].1);
    }
  }
}
