/**
 Threads moving between processors, run queues, wait channels and zombie lists,
 on any number of processors. A step is one stretch of code that no other
 processor can see inside of; the run-queue locks are part of the state, since
 thread_switch hands them from one thread to the next.
 */
module Scheduler {
  import opened Basics

  type Thread = nat
  type Channel = nat

  // t_state.
  datatype State = S_RUN | S_READY | S_SLEEP | S_ZOMBIE

  /**
   Where a processor is. Placing: thread_switch has put the thread on its channel and dropped
   the channel's lock, t_state is not written yet. Switching: the old thread is in its place,
   c_isidle is set and the run queue is locked. Idle: unlocked, in cpu_idle. Dispatching: the
   next thread is current, run queue still locked. Reaping: unlocked, clearing the zombie list.
   */
  datatype Stage = Running | Placing | Switching | Idle | Dispatching | Reaping

  // thread_consider_migration's progress; locked tells whether it has the lock it works under.
  datatype Migration =
    | NoMigration
    | Counting(i: nat, total: nat, mine: nat)
    | Taking(quota: nat, chosen: nat, left: nat)
    | Sending(share: nat, toSend: nat, i: nat, locked: bool)
    | PutBack(locked: bool)

  datatype Cpu = Cpu(
    stage: Stage,
    cur: Thread,
    runq: seq<Thread>,
    zombies: seq<Thread>,
    moving: seq<Thread>,
    victims: seq<Thread>,
    mig: Migration,
    lock: Option<nat>)

  datatype ThreadInfo = ThreadInfo(cpu: nat, state: State)

  // A thread's one place. Moving: off a channel or new, not yet on a run queue.
  datatype Place = OnCpu(c: nat) | Ready(c: nat) | Asleep(w: Channel) | Dead(c: nat) | Moving(c: nat) | Victim(c: nat)

  datatype Sys = Sys(
    cpus: seq<Cpu>,
    channels: map<Channel, seq<Thread>>,
    threads: map<Thread, ThreadInfo>,
    place: map<Thread, Place>)

  // The stages in which c_curthread is executing for itself and is on no list.
  predicate Executing(st: Stage) {
    st.Running? || st.Dispatching? || st.Reaping?
  }

  // The list that makes up a place.
  function List(s: Sys, p: Place): seq<Thread> {
    match p
    case OnCpu(c) => if c < |s.cpus| && Executing(s.cpus[c].stage) then [s.cpus[c].cur] else []
    case Ready(c) => if c < |s.cpus| then s.cpus[c].runq else []
    case Asleep(w) => if w in s.channels then s.channels[w] else []
    case Dead(c) => if c < |s.cpus| then s.cpus[c].zombies else []
    case Moving(c) => if c < |s.cpus| then s.cpus[c].moving else []
    case Victim(c) => if c < |s.cpus| then s.cpus[c].victims else []
  }

  // ---------------------------------------------------------------- the invariant

  // Every thread is in exactly one place, once.
  ghost predicate PlacesOk(s: Sys) {
    && s.place.Keys == s.threads.Keys
    && (forall p: Place, t: Thread :: t in List(s, p) <==> t in s.place && s.place[t] == p)
    && (forall p: Place :: Distinct(List(s, p)))
  }

  // What t_cpu and t_state say in each place.
  predicate ThreadOk(s: Sys, t: Thread, info: ThreadInfo, p: Place) {
    && info.cpu < |s.cpus|
    && match p
       case OnCpu(c) => info.cpu == c && info.state == if c < |s.cpus| && s.cpus[c].stage.Dispatching? then S_READY
         else S_RUN
       case Ready(c) => info.cpu == c && info.state == S_READY
       case Victim(c) => info.cpu == c && info.state == S_READY
       case Dead(c) => info.cpu == c && info.state == S_ZOMBIE
       case Asleep(_) => info.state == S_SLEEP || (s.cpus[info.cpu].cur == t && s.cpus[info.cpu].stage.Placing?
         && info.state == S_RUN)
       case Moving(_) => info.state != S_ZOMBIE && (info.state == S_RUN ==>
            s.cpus[info.cpu].cur == t && s.cpus[info.cpu].stage.Placing?)
  }

  ghost predicate ThreadsOk(s: Sys) {
    && (forall t: Thread | t in s.threads && t in s.place :: ThreadOk(s, t, s.threads[t], s.place[t]))
    && (forall c | 0 <= c < |s.cpus| :: s.cpus[c].cur in s.threads && s.threads[s.cpus[c].cur].cpu == c)
    && (forall c | 0 <= c < |s.cpus| && s.cpus[c].stage.Placing? && s.cpus[c].cur in s.place ::
          s.place[s.cpus[c].cur].Asleep? || s.place[s.cpus[c].cur].Moving?)
  }

  // thread_consider_migration's own bookkeeping on processor c.
  predicate MigrationOk(cpu: Cpu, c: nat, n: nat) {
    match cpu.mig
    case NoMigration => cpu.victims == []
    case Counting(i, _, mine) => cpu.victims == [] && i <= n && (i > c ==> mine <= |cpu.runq|)
    case Taking(_, chosen, left) => cpu.lock == Some(c) && |cpu.victims| + left == chosen && left <= |cpu.runq|
    case Sending(_, toSend, i, _) =>
      && i <= n
      && (|cpu.victims| == toSend || (|cpu.victims| == toSend + 1 && cpu.victims[toSend] == cpu.cur))
    case PutBack(locked) => locked ==> cpu.lock == Some(c)
  }

  // A processor in the middle of thread_switch has its own run queue locked.
  predicate CpuOk(cpu: Cpu, c: nat, n: nat) {
    && (cpu.stage.Placing? || cpu.stage.Switching? || cpu.stage.Dispatching? ==>
         cpu.lock == Some(c) && cpu.mig.NoMigration? && cpu.moving == [])
    && (cpu.stage.Reaping? ==> cpu.mig.NoMigration? && cpu.moving == [])
    && MigrationOk(cpu, c, n)
  }

  ghost predicate CpusOk(s: Sys) {
    && (forall c | 0 <= c < |s.cpus| :: CpuOk(s.cpus[c], c, |s.cpus|))
    && (forall c | 0 <= c < |s.cpus| :: TargetOk(s, c, s.cpus[c].mig))
  }

  // While threads are being sent to a processor, its run queue is locked for that.
  predicate TargetOk(s: Sys, c: nat, mig: Migration) {
    mig.Sending? && mig.locked ==> mig.i < |s.cpus| && mig.i != c && s.cpus[mig.i].lock == Some(c)
  }

  ghost predicate SysOk(s: Sys) {
    PlacesOk(s) && ThreadsOk(s) && CpusOk(s)
  }

  // ---------------------------------------------------------------- steps

  datatype Action =
    | Yield | Sleep(w: Channel) | Settle | Exit
    | Pick | GoIdle | Unidle | Finish | Reap | ReapDone
    | Fork(t: Thread) | WakeHead(w: Channel) | MakeRunnable
    | Start | Count | Decide | TakeOne | TakeDone
    | NextTarget | LockTarget | SendOne | UnlockTarget | SendDone
    | LockOwn | BackOne | BackDone

  function SetCpu(s: Sys, c: nat, cpu: Cpu): Sys
    requires c < |s.cpus|
  {
    s.(cpus := s.cpus[c := cpu])
  }

  function SetState(s: Sys, t: Thread, st: State): map<Thread, ThreadInfo> {
    if t in s.threads then s.threads[t := s.threads[t].(state := st)] else s.threads
  }

  // Processor c is running a thread and inside nothing of this file.
  predicate Plain(cpu: Cpu) {
    cpu.stage.Running? && cpu.mig.NoMigration? && cpu.moving == []
  }

  // thread_switch up to the point where the thread has been put where it goes.
  ghost predicate LeaveStep(s: Sys, s': Sys, c: nat, a: Action)
    requires c < |s.cpus|
  {
    var cpu := s.cpus[c];
    && Plain(cpu) && cpu.lock.None?
    && match a
       case Yield =>
         && |cpu.runq| > 0
         && s' == SetCpu(s, c, cpu.(runq := cpu.runq + [cpu.cur], stage := Switching, lock := Some(c)))
                    .(threads := SetState(s, cpu.cur, S_READY), place := s.place[cpu.cur := Ready(c)])
       case Sleep(w) =>
         && w in s.channels
         && s' == SetCpu(s, c, cpu.(stage := Placing, lock := Some(c)))
                    .(channels := s.channels[w := s.channels[w] + [cpu.cur]], place := s.place[cpu.cur := Asleep(w)])
       case Exit =>
         s' == SetCpu(s, c, cpu.(zombies := cpu.zombies + [cpu.cur], stage := Switching, lock := Some(c)))
                 .(threads := SetState(s, cpu.cur, S_ZOMBIE), place := s.place[cpu.cur := Dead(c)])
       case _ => false
  }

  // The rest of thread_switch, and thread_startup.
  ghost predicate SwitchStep(s: Sys, s': Sys, c: nat, a: Action)
    requires c < |s.cpus|
  {
    var cpu := s.cpus[c];
    match a
    case Settle =>
      cpu.stage.Placing? && s' == SetCpu(s, c, cpu.(stage := Switching)).(threads := SetState(s, cpu.cur, S_SLEEP))
    case Pick =>
      && cpu.stage.Switching? && |cpu.runq| > 0
      && s' == SetCpu(s, c, cpu.(cur := cpu.runq[0], runq := cpu.runq[1..], stage := Dispatching))
                 .(place := s.place[cpu.runq[0] := OnCpu(c)])
    case GoIdle =>
      cpu.stage.Switching? && |cpu.runq| == 0 && s' == SetCpu(s, c, cpu.(stage := Idle, lock := None))
    case Unidle =>
      && cpu.stage.Idle? && cpu.mig.NoMigration? && cpu.moving == [] && cpu.lock.None?
      && s' == SetCpu(s, c, cpu.(stage := Switching, lock := Some(c)))
    case Finish =>
      cpu.stage.Dispatching?
        && s' == SetCpu(s, c, cpu.(stage := Reaping, lock := None)).(threads := SetState(s, cpu.cur, S_RUN))
    case Reap =>
      && cpu.stage.Reaping? && |cpu.zombies| > 0
      && s' == SetCpu(s, c, cpu.(zombies := cpu.zombies[1..]))
                 .(threads := s.threads - {cpu.zombies[0]}, place := s.place - {cpu.zombies[0]})
    case ReapDone =>
      cpu.stage.Reaping? && |cpu.zombies| == 0 && s' == SetCpu(s, c, cpu.(stage := Running))
    case _ => false
  }

  // thread_fork, wchan_wakeone and wchan_wakeall, thread_make_runnable.
  ghost predicate WakeStep(s: Sys, s': Sys, c: nat, a: Action)
    requires c < |s.cpus|
  {
    var cpu := s.cpus[c];
    match a
    case Fork(t) =>
      && Plain(cpu) && t !in s.threads && t !in s.place
      && s' == SetCpu(s, c, cpu.(moving := [t]))
                 .(threads := s.threads[t := ThreadInfo(c, S_READY)], place := s.place[t := Moving(c)])
    case WakeHead(w) =>
      && (cpu.stage.Running? || cpu.stage.Idle?) && cpu.mig.NoMigration? && w in s.channels && |s.channels[w]| > 0
      && var t := s.channels[w][0];
         s' == SetCpu(s, c, cpu.(moving := cpu.moving + [t]))
                 .(channels := s.channels[w := s.channels[w][1..]], place := s.place[t := Moving(c)])
    case MakeRunnable =>
      && |cpu.moving| > 0 && cpu.moving[0] in s.threads
      && var t := cpu.moving[0];
         var d := s.threads[t].cpu;
         && d < |s.cpus| && s.cpus[d].lock.None?
         && var s1 := SetCpu(s, c, cpu.(moving := cpu.moving[1..]));
            s' == SetCpu(s1, d, s1.cpus[d].(runq := s1.cpus[d].runq + [t]))
                    .(threads := SetState(s, t, S_READY), place := s.place[t := Ready(d)])
    case _ => false
  }

  // thread_consider_migration up to the point where the victims are chosen.
  ghost predicate TakeStep(s: Sys, s': Sys, c: nat, a: Action)
    requires c < |s.cpus|
  {
    var cpu, n := s.cpus[c], |s.cpus|;
    match a
    case Start =>
      && (cpu.stage.Running? || cpu.stage.Idle?) && cpu.mig.NoMigration? && cpu.moving == []
      && s' == SetCpu(s, c, cpu.(mig := Counting(0, 0, 0)))
    case Count =>
      && cpu.mig.Counting? && cpu.mig.i < n && s.cpus[cpu.mig.i].lock.None?
      && var i := cpu.mig.i;
         var len := |s.cpus[i].runq|;
         s' == SetCpu(s, c, cpu.(mig := Counting(i + 1, cpu.mig.total + len, if i == c then len else cpu.mig.mine)))
    case Decide =>
      && cpu.mig.Counting? && cpu.mig.i == n && cpu.lock.None?
      && var share := (cpu.mig.total + n - 1) / n;
         s' == SetCpu(s, c, if cpu.mig.mine < share then cpu.(mig := NoMigration)
                            else cpu.(mig := Taking(share, cpu.mig.mine - share, cpu.mig.mine - share),
                              lock := Some(c)))
    case TakeOne =>
      && cpu.mig.Taking? && cpu.mig.left > 0 && |cpu.runq| > 0
      && var t := cpu.runq[|cpu.runq| - 1];
         s' == SetCpu(s, c, cpu.(runq := cpu.runq[..|cpu.runq| - 1], victims := [t] + cpu.victims,
           mig := cpu.mig.(left := cpu.mig.left - 1)))
                 .(place := s.place[t := Victim(c)])
    case TakeDone =>
      && cpu.mig.Taking? && cpu.mig.left == 0
      && s' == SetCpu(s, c, cpu.(mig := Sending(cpu.mig.quota, cpu.mig.chosen, 0, false), lock := None))
    case _ => false
  }

  // The rest of thread_consider_migration.
  ghost predicate SendStep(s: Sys, s': Sys, c: nat, a: Action)
    requires c < |s.cpus|
  {
    var cpu, n := s.cpus[c], |s.cpus|;
    match a
    case NextTarget =>
      && cpu.mig.Sending? && !cpu.mig.locked && cpu.mig.i < n && cpu.mig.toSend > 0 && cpu.mig.i == c
      && s' == SetCpu(s, c, cpu.(mig := cpu.mig.(i := cpu.mig.i + 1)))
    case LockTarget =>
      && cpu.mig.Sending? && !cpu.mig.locked && cpu.mig.i < n && cpu.mig.toSend > 0 && cpu.mig.i != c
        && s.cpus[cpu.mig.i].lock.None?
      && var i := cpu.mig.i;
         s' == SetCpu(SetCpu(s, c, cpu.(mig := cpu.mig.(locked := true))), i, s.cpus[i].(lock := Some(c)))
    case SendOne =>
      && cpu.mig.Sending? && cpu.mig.locked && cpu.mig.i < n && cpu.mig.i != c
      && var i := cpu.mig.i;
         && |s.cpus[i].runq| < cpu.mig.share && cpu.mig.toSend > 0 && |cpu.victims| > 0
         && var t := cpu.victims[0];
            var mig := cpu.mig.(toSend := cpu.mig.toSend - 1);
            if t == cpu.cur then
              s' == SetCpu(s, c, cpu.(victims := cpu.victims[1..] + [t], mig := mig))
            else
              && t in s.threads
              && s' == SetCpu(SetCpu(s, c, cpu.(victims := cpu.victims[1..], mig := mig)), i,
                s.cpus[i].(runq := s.cpus[i].runq + [t]))
                         .(threads := s.threads[t := s.threads[t].(cpu := i)], place := s.place[t := Ready(i)])
    case UnlockTarget =>
      && cpu.mig.Sending? && cpu.mig.locked && cpu.mig.i < n && cpu.mig.i != c
      && var i := cpu.mig.i;
         && !(|s.cpus[i].runq| < cpu.mig.share && cpu.mig.toSend > 0)
         && s' == SetCpu(SetCpu(s, c, cpu.(mig := cpu.mig.(i := i + 1, locked := false))), i, s.cpus[i].(lock := None))
    case SendDone =>
      && cpu.mig.Sending? && !cpu.mig.locked && !(cpu.mig.i < n && cpu.mig.toSend > 0)
      && s' == SetCpu(s, c, cpu.(mig := if cpu.victims == [] then NoMigration else PutBack(false)))
    case LockOwn =>
      cpu.mig == PutBack(false) && cpu.lock.None? && s' == SetCpu(s, c, cpu.(mig := PutBack(true), lock := Some(c)))
    case BackOne =>
      && cpu.mig == PutBack(true) && |cpu.victims| > 0
      && var t := cpu.victims[0];
         s' == SetCpu(s, c, cpu.(victims := cpu.victims[1..], runq := cpu.runq + [t])).(place := s.place[t := Ready(c)])
    case BackDone =>
      cpu.mig == PutBack(true) && |cpu.victims| == 0 && s' == SetCpu(s, c, cpu.(mig := NoMigration, lock := None))
    case _ => false
  }

  ghost predicate Step(s: Sys, s': Sys, c: nat, a: Action) {
    c < |s.cpus| && (LeaveStep(s, s', c, a) || SwitchStep(s, s', c, a) || WakeStep(s, s', c, a)
      || TakeStep(s, s', c, a) || SendStep(s, s', c, a))
  }

  // ---------------------------------------------------------------- moving one thread

  lemma AddTail(q: seq<Thread>, t: Thread)
    requires Distinct(q) && t !in q
    ensures Distinct(q + [t]) && forall u: Thread :: u in q + [t] <==> u in q || u == t
  {}

  lemma AddHead(q: seq<Thread>, t: Thread)
    requires Distinct(q) && t !in q
    ensures Distinct([t] + q) && forall u: Thread :: u in [t] + q <==> u in q || u == t
  {}

  lemma RemoveHead(q: seq<Thread>)
    requires Distinct(q) && |q| > 0
    ensures Distinct(q[1..]) && forall u: Thread :: u in q[1..] <==> u in q && u != q[0]
  {
    assert q == [q[0]] + q[1..];
  }

  lemma RemoveTail(q: seq<Thread>)
    requires Distinct(q) && |q| > 0
    ensures Distinct(q[..|q| - 1]) && forall u: Thread :: u in q[..|q| - 1] <==> u in q && u != q[|q| - 1]
  {
    var n := |q| - 1;
    assert q == q[..n] + [q[n]];
  }

  // Thread t goes from the list of place p to the list of place q; no other list changes.
  ghost predicate Moved(s: Sys, s': Sys, t: Thread, p: Place, q: Place) {
    && p != q && t in s.place && s.place[t] == p && s'.place == s.place[t := q] && s'.threads.Keys == s.threads.Keys
    && (forall r: Place | r != p && r != q :: List(s', r) == List(s, r))
    && Distinct(List(s', p)) && (forall u: Thread :: u in List(s', p) <==> u in List(s, p) && u != t)
    && Distinct(List(s', q)) && (forall u: Thread :: u in List(s', q) <==> u in List(s, q) || u == t)
  }

  lemma MovedKeeps(s: Sys, s': Sys, t: Thread, p: Place, q: Place)
    requires PlacesOk(s) && Moved(s, s', t, p, q)
    ensures PlacesOk(s')
  {
    hide List, Distinct;
    forall r: Place, u: Thread
      ensures u in List(s', r) <==> u in s'.place && s'.place[u] == r
    {
      assert u in List(s, r) <==> u in s.place && s.place[u] == r;
    }
    forall r: Place
      ensures Distinct(List(s', r))
    {
      assert Distinct(List(s, r));
    }
  }

  lemma Unmoved(s: Sys, s': Sys)
    requires PlacesOk(s) && s'.place == s.place && s'.threads.Keys == s.threads.Keys
    requires forall r: Place :: List(s', r) == List(s, r)
    ensures PlacesOk(s')
  {
    hide List, Distinct;
    forall r: Place, u: Thread
      ensures u in List(s', r) <==> u in s'.place && s'.place[u] == r
    {
      assert u in List(s, r) <==> u in s.place && s.place[u] == r;
    }
  }

  // A thread is on its own processor's list only, so it is found where its place says.
  lemma At(s: Sys, p: Place, t: Thread)
    requires PlacesOk(s) && t in List(s, p)
    ensures t in s.place && s.place[t] == p && t in s.threads
    ensures forall q: Place | q != p :: t !in List(s, q)
  {
    hide List, Distinct;
  }

  lemma DistinctAt(s: Sys, p: Place)
    requires PlacesOk(s)
    ensures Distinct(List(s, p))
  {}

  // What a change of processor o into n may mean for thread u, whose processor it is.
  predicate StageFrame(o: Cpu, n: Cpu, u: Thread) {
    || o.cur != u
    || (n.cur == u && (n.stage.Dispatching? <==> o.stage.Dispatching?) && (o.stage.Placing? ==> n.stage.Placing?))
    || (!o.stage.Placing? && !Executing(o.stage))
  }

  // A thread stays well described when its own record does not change.
  lemma ThreadFrame(s: Sys, s': Sys, u: Thread, info: ThreadInfo, p: Place)
    requires ThreadOk(s, u, info, p) && |s'.cpus| == |s.cpus| && u in List(s, p)
    requires StageFrame(s.cpus[info.cpu], s'.cpus[info.cpu], u)
    ensures ThreadOk(s', u, info, p)
  {}

  // What holds of every processor's current thread.
  predicate CurOk(s: Sys, c: nat)
    requires c < |s.cpus|
  {
    var t := s.cpus[c].cur;
    && t in s.threads && t in s.place && s.threads[t].cpu == c
    && (s.cpus[c].stage.Placing? ==> s.place[t].Asleep? || s.place[t].Moving?)
  }

  lemma CurFacts(s: Sys, c: nat)
    requires PlacesOk(s) && ThreadsOk(s) && c < |s.cpus|
    ensures CurOk(s, c)
  {
    hide List, Distinct, ThreadOk;
  }

  // At most the record and place of thread t changed.
  lemma ThreadsMove(s: Sys, s': Sys, t: Thread)
    requires PlacesOk(s) && ThreadsOk(s) && |s'.cpus| == |s.cpus|
    requires s'.threads.Keys == s'.place.Keys && t in s'.threads && s'.threads == s.threads[t := s'.threads[t]]
             && s'.place == s.place[t := s'.place[t]]
    requires ThreadOk(s', t, s'.threads[t], s'.place[t])
    requires forall c, u: Thread | 0 <= c < |s.cpus| && u != t :: StageFrame(s.cpus[c], s'.cpus[c], u)
    requires forall c | 0 <= c < |s.cpus| && (s'.cpus[c].cur == t || s'.cpus[c].cur != s.cpus[c].cur
             || s'.cpus[c].stage != s.cpus[c].stage) :: CurOk(s', c)
    ensures ThreadsOk(s')
  {
    hide List, Distinct, StageFrame, ThreadOk;
    forall u: Thread | u in s'.threads
      ensures ThreadOk(s', u, s'.threads[u], s'.place[u])
    {
      if u != t {
        assert u in s.threads && u in s.place;
        assert u in List(s, s.place[u]);
        HomeOk(s, u);
        ThreadFrame(s, s', u, s.threads[u], s.place[u]);
      }
    }
    forall c | 0 <= c < |s.cpus|
      ensures CurOk(s', c)
    {
      CurFacts(s, c);
    }
  }

  lemma HomeOk(s: Sys, u: Thread)
    requires ThreadsOk(s) && u in s.threads && u in s.place
    ensures ThreadOk(s, u, s.threads[u], s.place[u]) && s.threads[u].cpu < |s.cpus|
  {
    hide List;
  }

  // Only processor c's record changed, its lock only if it was free or its own.
  lemma CpuChange(s: Sys, s': Sys, c: nat)
    requires CpusOk(s) && c < |s.cpus| == |s'.cpus| && s'.cpus == s.cpus[c := s'.cpus[c]]
    requires CpuOk(s'.cpus[c], c, |s.cpus|)
    requires s'.cpus[c].mig == s.cpus[c].mig || !(s'.cpus[c].mig.Sending? && s'.cpus[c].mig.locked)
    requires s'.cpus[c].lock == s.cpus[c].lock || s.cpus[c].lock == None || s.cpus[c].lock == Some(c)
    ensures CpusOk(s')
  {
    hide CpuOk;
    forall d | 0 <= d < |s.cpus|
      ensures TargetOk(s', d, s'.cpus[d].mig)
    {
      assert TargetOk(s, d, s.cpus[d].mig);
    }
  }

  // ---------------------------------------------------------------- thread_switch

  lemma LeaveKeeps(s: Sys, s': Sys, c: nat, a: Action)
    requires SysOk(s) && c < |s.cpus| && LeaveStep(s, s', c, a)
    ensures SysOk(s')
  {
    hide PlacesOk, ThreadsOk, CpusOk, CpuOk, Distinct;
    var cpu, t := s.cpus[c], s.cpus[c].cur;
    CurFacts(s, c);
    assert t in List(s, OnCpu(c));
    At(s, OnCpu(c), t);
    var q := if a.Yield? then Ready(c) else if a.Exit? then Dead(c) else Asleep(a.w);
    LeaveLists(s, s', c, a, q);
    MovedKeeps(s, s', t, OnCpu(c), q);
    SameKeys(s');
    LeaveThreads(s, s', c, a);
    OneCpu(s, c);
    CpuChange(s, s', c);
  }

  lemma OneCpu(s: Sys, c: nat)
    requires CpusOk(s) && c < |s.cpus|
    ensures CpuOk(s.cpus[c], c, |s.cpus|)
    ensures Plain(s.cpus[c]) && s.cpus[c].lock.None? ==>
              forall q: seq<Thread>, z: seq<Thread>, st: Stage | !st.Reaping? ::
                CpuOk(s.cpus[c].(runq := q, zombies := z, stage := st, lock := Some(c)), c, |s.cpus|)
  {}

  lemma LeaveLists(s: Sys, s': Sys, c: nat, a: Action, q: Place)
    requires PlacesOk(s) && c < |s.cpus| && LeaveStep(s, s', c, a) && CurOk(s, c)
    requires q == if a.Yield? then Ready(c) else if a.Exit? then Dead(c) else Asleep(a.w)
    ensures Moved(s, s', s.cpus[c].cur, OnCpu(c), q)
  {
    var t := s.cpus[c].cur;
    assert t in List(s, OnCpu(c));
    At(s, OnCpu(c), t);
    DistinctAt(s, q);
    hide PlacesOk, CurOk;
    assert Distinct(List(s', OnCpu(c))) && List(s, OnCpu(c)) == [t] && List(s', OnCpu(c)) == [];
    hide Distinct;
    AddTail(List(s, q), t);
    assert List(s', q) == List(s, q) + [t];
    assert forall r: Place | r != OnCpu(c) && r != q :: List(s', r) == List(s, r);
    hide List;
  }

  lemma LeaveThreads(s: Sys, s': Sys, c: nat, a: Action)
    requires PlacesOk(s) && ThreadsOk(s) && c < |s.cpus| && LeaveStep(s, s', c, a) && CurOk(s, c)
    requires s.place[s.cpus[c].cur] == OnCpu(c) && s'.threads.Keys == s'.place.Keys
    ensures ThreadsOk(s')
  {
    var t := s.cpus[c].cur;
    HomeOk(s, t);
    hide PlacesOk, ThreadsOk, List;
    ThreadsMove(s, s', t);
  }

  lemma SameKeys(s: Sys)
    requires PlacesOk(s)
    ensures s.threads.Keys == s.place.Keys
  {}

  // Steps of thread_switch after which every thread is where it was.
  predicate Stays(a: Action) {
    a.Settle? || a.GoIdle? || a.Unidle? || a.Finish? || a.ReapDone?
  }

  lemma StayKeeps(s: Sys, s': Sys, c: nat, a: Action)
    requires SysOk(s) && c < |s.cpus| && SwitchStep(s, s', c, a) && Stays(a)
    ensures SysOk(s')
  {
    StayPlaces(s, s', c, a);
    StayCpus(s, s', c, a);
    hide PlacesOk, CpusOk, Distinct, SwitchStep;
    assert ThreadsOk(s') by {
      CurFacts(s, c);
      SameKeys(s);
      CurPlace(s, c);
      hide ThreadsOk, List;
      StayThreads(s, s', c, a);
    }
  }

  lemma StayPlaces(s: Sys, s': Sys, c: nat, a: Action)
    requires PlacesOk(s) && c < |s.cpus| && SwitchStep(s, s', c, a) && Stays(a)
    ensures PlacesOk(s')
  {
    hide PlacesOk, Distinct;
    assert forall r: Place :: List(s', r) == List(s, r);
    hide List;
    Unmoved(s, s');
  }

  lemma StayCpus(s: Sys, s': Sys, c: nat, a: Action)
    requires CpusOk(s) && c < |s.cpus| && SwitchStep(s, s', c, a) && Stays(a)
    ensures CpusOk(s')
  {
    assert CpuOk(s.cpus[c], c, |s.cpus|);
    hide CpusOk;
    CpuChange(s, s', c);
  }

  lemma CurPlace(s: Sys, c: nat)
    requires PlacesOk(s) && c < |s.cpus| && s.cpus[c].cur in s.place
    ensures s.place[s.cpus[c].cur] == OnCpu(c) <==> Executing(s.cpus[c].stage)
  {
    hide Distinct;
    var t := s.cpus[c].cur;
    assert t in List(s, OnCpu(c)) <==> s.place[t] == OnCpu(c);
  }

  lemma StayThreads(s: Sys, s': Sys, c: nat, a: Action)
    requires PlacesOk(s) && ThreadsOk(s) && c < |s.cpus| && SwitchStep(s, s', c, a) && CurOk(s, c)
             && s.threads.Keys == s.place.Keys
    requires Stays(a)
    requires s.place[s.cpus[c].cur] == OnCpu(c) <==> Executing(s.cpus[c].stage)
    ensures ThreadsOk(s')
  {
    var t := s.cpus[c].cur;
    HomeOk(s, t);
    hide PlacesOk, ThreadsOk, List;
    assert s'.threads == s.threads[t := s'.threads[t]] && s'.place == s.place[t := s'.place[t]];
    assert ThreadOk(s', t, s'.threads[t], s'.place[t]) by {
      hide StageFrame;
    }
    ThreadsMove(s, s', t);
  }

  lemma PickKeeps(s: Sys, s': Sys, c: nat)
    requires SysOk(s) && c < |s.cpus| && SwitchStep(s, s', c, Pick)
    ensures SysOk(s')
  {
    var t := s.cpus[c].runq[0];
    PickLists(s, s', c);
    hide PlacesOk, ThreadsOk, Distinct, List;
    MovedKeeps(s, s', t, Ready(c), OnCpu(c));
    PickThreads(s, s', c);
    assert CpuOk(s.cpus[c], c, |s.cpus|);
    hide CpusOk;
    CpuChange(s, s', c);
  }

  lemma PickThreads(s: Sys, s': Sys, c: nat)
    requires PlacesOk(s) && ThreadsOk(s) && PlacesOk(s') && c < |s.cpus| && SwitchStep(s, s', c, Pick)
    ensures ThreadsOk(s')
  {
    var t := s.cpus[c].runq[0];
    assert t in List(s, Ready(c));
    At(s, Ready(c), t);
    HomeOk(s, t);
    SameKeys(s);
    hide PlacesOk, ThreadsOk, Distinct, List;
    assert s'.threads == s.threads[t := s'.threads[t]];
    ThreadsMove(s, s', t);
  }

  lemma PickLists(s: Sys, s': Sys, c: nat)
    requires PlacesOk(s) && c < |s.cpus| && SwitchStep(s, s', c, Pick)
    ensures Moved(s, s', s.cpus[c].runq[0], Ready(c), OnCpu(c))
  {
    var q := List(s, Ready(c));
    assert q[0] in q;
    At(s, Ready(c), q[0]);
    DistinctAt(s, Ready(c));
    hide PlacesOk;
    RemoveHead(q);
    assert List(s', Ready(c)) == q[1..] && List(s', OnCpu(c)) == [q[0]] && List(s, OnCpu(c)) == [];
  }

  /**
   exorcise's assertions, and more: the zombie is not current on its own processor nor on any
   other, so nothing is running on the stack that goes away.
   */
  lemma ReapIsSafe(s: Sys, s': Sys, c: nat, d: nat)
    requires SysOk(s) && c < |s.cpus| && SwitchStep(s, s', c, Reap) && d < |s.cpus|
    ensures s.cpus[c].zombies[0] in s.threads && s.threads[s.cpus[c].zombies[0]].state == S_ZOMBIE
    ensures s.cpus[d].cur != s.cpus[c].zombies[0]
  {
    hide Distinct, CpusOk;
    var z := s.cpus[c].zombies[0];
    assert z in List(s, Dead(c));
    At(s, Dead(c), z);
    HomeOk(s, z);
    CurFacts(s, d);
    assert z !in List(s, OnCpu(c));
  }

  lemma ReapKeeps(s: Sys, s': Sys, c: nat)
    requires SysOk(s) && c < |s.cpus| && SwitchStep(s, s', c, Reap)
    ensures SysOk(s')
  {
    var z := s.cpus[c].zombies[0];
    forall d | 0 <= d < |s.cpus|
      ensures s.cpus[d].cur != z
    {
      ReapIsSafe(s, s', c, d);
    }
    assert CpuOk(s.cpus[c], c, |s.cpus|);
    ReapPlaces(s, s', c);
    ReapThreads(s, s', c);
    hide PlacesOk, ThreadsOk, CpusOk, Distinct, List;
    CpuChange(s, s', c);
  }

  lemma ReapPlaces(s: Sys, s': Sys, c: nat)
    requires PlacesOk(s) && c < |s.cpus| && SwitchStep(s, s', c, Reap)
    ensures PlacesOk(s')
  {
    var q := List(s, Dead(c));
    assert q[0] in q;
    At(s, Dead(c), q[0]);
    DistinctAt(s, Dead(c));
    RemoveHead(q);
    hide PlacesOk, Distinct;
    assert forall r: Place | r != Dead(c) :: List(s', r) == List(s, r);
    assert List(s', Dead(c)) == q[1..];
    RemovedKeeps(s, s', q[0], Dead(c));
  }

  lemma RemovedKeeps(s: Sys, s': Sys, t: Thread, p: Place)
    requires PlacesOk(s) && s'.threads == s.threads - {t} && s'.place == s.place - {t} && t in s.place
             && s.place[t] == p
    requires forall r: Place | r != p :: List(s', r) == List(s, r)
    requires Distinct(List(s', p)) && forall u: Thread :: u in List(s', p) <==> u in List(s, p) && u != t
    ensures PlacesOk(s')
  {
    hide List, Distinct;
    forall r: Place, u: Thread
      ensures u in List(s', r) <==> u in s'.place && s'.place[u] == r
    {
      assert u in List(s, r) <==> u in s.place && s.place[u] == r;
    }
    forall r: Place
      ensures Distinct(List(s', r))
    {
      assert Distinct(List(s, r));
    }
  }

  lemma ReapThreads(s: Sys, s': Sys, c: nat)
    requires PlacesOk(s) && ThreadsOk(s) && c < |s.cpus| && SwitchStep(s, s', c, Reap)
    requires forall d | 0 <= d < |s.cpus| :: s.cpus[d].cur != s.cpus[c].zombies[0]
    ensures ThreadsOk(s')
  {
    SameKeys(s);
    hide Distinct;
    forall u: Thread | u in s'.threads
      ensures ThreadOk(s', u, s'.threads[u], s'.place[u])
    {
      assert u in List(s, s.place[u]);
      HomeOk(s, u);
      hide List;
      ThreadFrame(s, s', u, s.threads[u], s.place[u]);
    }
  }

  // ---------------------------------------------------------------- fork and wakeup

  lemma ForkKeeps(s: Sys, s': Sys, c: nat, t: Thread)
    requires SysOk(s) && c < |s.cpus| && WakeStep(s, s', c, Fork(t))
    ensures SysOk(s')
  {
    assert CpuOk(s.cpus[c], c, |s.cpus|);
    SameKeys(s);
    ForkPlaces(s, s', c, t);
    hide PlacesOk, CpusOk, Distinct, List;
    assert ThreadsOk(s') by {
      assert forall d | 0 <= d < |s.cpus| :: s.cpus[d].cur != t;
      hide ThreadsOk;
      ThreadsMove(s, s', t);
    }
    hide ThreadsOk;
    CpuChange(s, s', c);
  }

  lemma ForkPlaces(s: Sys, s': Sys, c: nat, t: Thread)
    requires PlacesOk(s) && c < |s.cpus| && WakeStep(s, s', c, Fork(t))
    ensures PlacesOk(s')
  {
    assert List(s, Moving(c)) == [] && List(s', Moving(c)) == [t];
    assert forall r: Place | r != Moving(c) :: List(s', r) == List(s, r);
    assert Distinct([t]);
    hide List, Distinct;
    forall r: Place, u: Thread
      ensures u in List(s', r) <==> u in s'.place && s'.place[u] == r
    {
      assert u in List(s, r) <==> u in s.place && s.place[u] == r;
    }
    forall r: Place
      ensures Distinct(List(s', r))
    {
      assert Distinct(List(s, r));
    }
  }

  lemma WakeHeadKeeps(s: Sys, s': Sys, c: nat, w: Channel)
    requires SysOk(s) && c < |s.cpus| && WakeStep(s, s', c, WakeHead(w))
    ensures SysOk(s')
  {
    var t := s.channels[w][0];
    assert t in List(s, Asleep(w));
    At(s, Asleep(w), t);
    HomeOk(s, t);
    SameKeys(s);
    assert CpuOk(s.cpus[c], c, |s.cpus|);
    WakeLists(s, s', c, w);
    hide PlacesOk, CpusOk, Distinct, List;
    MovedKeeps(s, s', t, Asleep(w), Moving(c));
    WakeThreads(s, s', c, t);
    hide ThreadsOk;
    CpuChange(s, s', c);
  }

  lemma WakeLists(s: Sys, s': Sys, c: nat, w: Channel)
    requires PlacesOk(s) && c < |s.cpus| && WakeStep(s, s', c, WakeHead(w))
    ensures Moved(s, s', s.channels[w][0], Asleep(w), Moving(c))
  {
    var q := List(s, Asleep(w));
    assert q[0] in q;
    At(s, Asleep(w), q[0]);
    DistinctAt(s, Asleep(w));
    DistinctAt(s, Moving(c));
    hide PlacesOk, Distinct;
    RemoveHead(q);
    AddTail(List(s, Moving(c)), q[0]);
    assert List(s', Asleep(w)) == q[1..] && List(s', Moving(c)) == List(s, Moving(c)) + [q[0]];
  }

  lemma WakeThreads(s: Sys, s': Sys, c: nat, t: Thread)
    requires PlacesOk(s) && ThreadsOk(s) && |s'.cpus| == |s.cpus| && t in s.threads && t in s.place
             && s.threads.Keys == s.place.Keys
    requires s'.threads == s.threads && s'.place == s.place[t := Moving(c)] && s.place[t].Asleep?
    requires forall d | 0 <= d < |s.cpus| :: s'.cpus[d].cur == s.cpus[d].cur && s'.cpus[d].stage == s.cpus[d].stage
    ensures ThreadsOk(s')
  {
    HomeOk(s, t);
    assert s'.threads == s.threads[t := s'.threads[t]];
    hide PlacesOk, List;
    forall d | 0 <= d < |s.cpus|
      ensures CurOk(s', d)
    {
      CurFacts(s, d);
    }
    hide ThreadsOk;
    ThreadsMove(s, s', t);
  }

  lemma RunnableKeeps(s: Sys, s': Sys, c: nat)
    requires SysOk(s) && c < |s.cpus| && WakeStep(s, s', c, MakeRunnable)
    ensures SysOk(s')
  {
    var t := s.cpus[c].moving[0];
    var d := s.threads[t].cpu;
    RunnableLists(s, s', c, t, d);
    hide PlacesOk, ThreadsOk, Distinct, List;
    MovedKeeps(s, s', t, Moving(c), Ready(d));
    RunnableThreads(s, s', c, t, d);
    RunnableCpus(s, s', c, t, d);
  }

  lemma RunnableLists(s: Sys, s': Sys, c: nat, t: Thread, d: nat)
    requires PlacesOk(s) && c < |s.cpus| && WakeStep(s, s', c, MakeRunnable) && t == s.cpus[c].moving[0]
             && d == s.threads[t].cpu
    ensures Moved(s, s', t, Moving(c), Ready(d))
  {
    var q := List(s, Moving(c));
    assert q[0] in q;
    At(s, Moving(c), t);
    DistinctAt(s, Moving(c));
    DistinctAt(s, Ready(d));
    hide PlacesOk, Distinct;
    RemoveHead(q);
    AddTail(List(s, Ready(d)), t);
    assert List(s', Moving(c)) == q[1..] && List(s', Ready(d)) == List(s, Ready(d)) + [t];
  }

  lemma RunnableThreads(s: Sys, s': Sys, c: nat, t: Thread, d: nat)
    requires SysOk(s) && PlacesOk(s') && c < |s.cpus| && WakeStep(s, s', c, MakeRunnable) && t == s.cpus[c].moving[0]
             && d == s.threads[t].cpu
    ensures ThreadsOk(s')
  {
    assert t in List(s, Moving(c));
    At(s, Moving(c), t);
    HomeOk(s, t);
    SameKeys(s);
    SameKeys(s');
    assert CpuOk(s.cpus[d], d, |s.cpus|);
    hide PlacesOk, Distinct, List, CpusOk;
    forall e | 0 <= e < |s.cpus|
      ensures CurOk(s', e)
    {
      CurFacts(s, e);
    }
    hide ThreadsOk;
    ThreadsMove(s, s', t);
  }

  lemma RunnableCpus(s: Sys, s': Sys, c: nat, t: Thread, d: nat)
    requires CpusOk(s) && c < |s.cpus| && WakeStep(s, s', c, MakeRunnable) && t == s.cpus[c].moving[0]
             && d == s.threads[t].cpu
    ensures CpusOk(s')
  {
    assert CpuOk(s.cpus[c], c, |s.cpus|) && CpuOk(s.cpus[d], d, |s.cpus|);
    var s1 := SetCpu(s, c, s.cpus[c].(moving := s.cpus[c].moving[1..]));
    hide CpusOk;
    CpuChange(s, s1, c);
    CpuChange(s1, s', d);
  }

  // ---------------------------------------------------------------- migration

  // Bookkeeping steps: no thread moves, no stage or current thread changes.
  lemma QuietKeeps(s: Sys, s': Sys)
    requires SysOk(s) && |s'.cpus| == |s.cpus| && s'.threads == s.threads && s'.place == s.place
             && s'.channels == s.channels
    requires forall d | 0 <= d < |s.cpus| ::
               s'.cpus[d] == s.cpus[d].(mig := s'.cpus[d].mig, lock := s'.cpus[d].lock)
    requires CpusOk(s')
    ensures SysOk(s')
  {
    hide CpusOk, Distinct;
    assert forall r: Place :: List(s', r) == List(s, r);
    assert PlacesOk(s') by {
      hide List;
      Unmoved(s, s');
    }
    hide PlacesOk, List;
    SameKeys(s);
    forall u: Thread | u in s'.threads
      ensures ThreadOk(s', u, s'.threads[u], s'.place[u])
    {
      assert ThreadOk(s, u, s.threads[u], s.place[u]);
    }
  }

  // The sum of all queues, shared out, rounded up.
  lemma ShareFits(total: nat, n: nat, mine: nat)
    requires n > 0 && mine >= (total + n - 1) / n
    ensures 0 <= mine - (total + n - 1) / n <= mine
  {}

  lemma QuietSteps(s: Sys, s': Sys, c: nat, a: Action)
    requires SysOk(s) && c < |s.cpus| && (TakeStep(s, s', c, a) || SendStep(s, s', c, a))
    requires a.Start? || a.Count? || a.Decide? || a.TakeDone? || a.NextTarget? || a.SendDone? || a.LockOwn?
             || a.BackDone?
    ensures SysOk(s')
  {
    hide PlacesOk, ThreadsOk, List;
    assert CpuOk(s.cpus[c], c, |s.cpus|);
    if a.Decide? && !(s.cpus[c].mig.mine < (s.cpus[c].mig.total + |s.cpus| - 1) / |s.cpus|) {
      ShareFits(s.cpus[c].mig.total, |s.cpus|, s.cpus[c].mig.mine);
    }
    assert CpusOk(s') by {
      hide CpusOk;
      CpuChange(s, s', c);
    }
    hide CpusOk;
    QuietKeeps(s, s');
  }

  lemma LockSteps(s: Sys, s': Sys, c: nat, a: Action)
    requires SysOk(s) && c < |s.cpus| && SendStep(s, s', c, a) && (a.LockTarget? || a.UnlockTarget?)
    ensures SysOk(s')
  {
    hide PlacesOk, ThreadsOk, List;
    LockCpus(s, s', c, a);
    hide CpusOk;
    QuietKeeps(s, s');
  }

  lemma LockCpus(s: Sys, s': Sys, c: nat, a: Action)
    requires CpusOk(s) && c < |s.cpus| && SendStep(s, s', c, a) && (a.LockTarget? || a.UnlockTarget?)
    ensures CpusOk(s')
  {
    var i := s.cpus[c].mig.i;
    assert TargetOk(s, c, s.cpus[c].mig);
    assert CpuOk(s.cpus[c], c, |s.cpus|) && CpuOk(s.cpus[i], i, |s.cpus|);
    forall d | 0 <= d < |s.cpus|
      ensures CpuOk(s'.cpus[d], d, |s.cpus|) && TargetOk(s', d, s'.cpus[d].mig)
    {
      assert CpuOk(s.cpus[d], d, |s.cpus|) && TargetOk(s, d, s.cpus[d].mig);
    }
  }

  lemma TakeOneKeeps(s: Sys, s': Sys, c: nat)
    requires SysOk(s) && c < |s.cpus| && TakeStep(s, s', c, TakeOne)
    ensures SysOk(s')
  {
    var q := s.cpus[c].runq;
    var t := q[|q| - 1];
    TakeOneLists(s, s', c);
    SameKeys(s);
    assert CpuOk(s.cpus[c], c, |s.cpus|);
    hide PlacesOk, ThreadsOk, List, Distinct, CpusOk;
    assert CpusOk(s') by {
      CpuChange(s, s', c);
    }
    hide CpuOk;
    MovedKeeps(s, s', t, Ready(c), Victim(c));
    VictimThreads(s, s', t, Ready(c), Victim(c));
  }

  lemma TakeOneLists(s: Sys, s': Sys, c: nat)
    requires PlacesOk(s) && c < |s.cpus| && TakeStep(s, s', c, TakeOne)
    ensures Moved(s, s', s.cpus[c].runq[|s.cpus[c].runq| - 1], Ready(c), Victim(c))
  {
    var q := List(s, Ready(c));
    var t := q[|q| - 1];
    assert t in q;
    At(s, Ready(c), t);
    DistinctAt(s, Ready(c));
    DistinctAt(s, Victim(c));
    hide PlacesOk, Distinct;
    RemoveTail(q);
    AddHead(List(s, Victim(c)), t);
    assert List(s', Ready(c)) == q[..|q| - 1] && List(s', Victim(c)) == [t] + List(s, Victim(c));
  }

  // A thread between its processor's run queue and the victims keeps its record.
  lemma VictimThreads(s: Sys, s': Sys, t: Thread, p: Place, q: Place)
    requires PlacesOk(s) && ThreadsOk(s) && |s'.cpus| == |s.cpus| && t in s.threads && t in s.place && s.place[t] == p
    requires s'.threads == s.threads && s'.place == s.place[t := q]
    requires (p.Ready? && q == Victim(p.c)) || (p.Victim? && q == Ready(p.c))
    requires forall d | 0 <= d < |s.cpus| :: s'.cpus[d].cur == s.cpus[d].cur && s'.cpus[d].stage == s.cpus[d].stage
    ensures ThreadsOk(s')
  {
    HomeOk(s, t);
    SameKeys(s);
    assert s'.threads == s.threads[t := s'.threads[t]];
    hide PlacesOk, List;
    forall d | 0 <= d < |s.cpus|
      ensures CurOk(s', d)
    {
      CurFacts(s, d);
    }
    hide ThreadsOk;
    ThreadsMove(s, s', t);
  }

  lemma BackOneKeeps(s: Sys, s': Sys, c: nat)
    requires SysOk(s) && c < |s.cpus| && SendStep(s, s', c, BackOne)
    ensures SysOk(s')
  {
    var t := s.cpus[c].victims[0];
    BackOneLists(s, s', c);
    assert CpuOk(s.cpus[c], c, |s.cpus|);
    hide PlacesOk, ThreadsOk, List, Distinct;
    MovedKeeps(s, s', t, Victim(c), Ready(c));
    SameKeys(s);
    VictimThreads(s, s', t, Victim(c), Ready(c));
    hide CpusOk;
    CpuChange(s, s', c);
  }

  lemma BackOneLists(s: Sys, s': Sys, c: nat)
    requires PlacesOk(s) && c < |s.cpus| && SendStep(s, s', c, BackOne)
    ensures Moved(s, s', s.cpus[c].victims[0], Victim(c), Ready(c))
  {
    var q := List(s, Victim(c));
    assert q[0] in q;
    At(s, Victim(c), q[0]);
    DistinctAt(s, Victim(c));
    DistinctAt(s, Ready(c));
    hide PlacesOk, Distinct;
    RemoveHead(q);
    AddTail(List(s, Ready(c)), q[0]);
    assert List(s', Victim(c)) == q[1..] && List(s', Ready(c)) == List(s, Ready(c)) + [q[0]];
  }

  // The victim is the current thread, which is idle on this very queue: it is skipped.
  predicate Skips(s: Sys, c: nat)
    requires c < |s.cpus|
  {
    |s.cpus[c].victims| > 0 && s.cpus[c].victims[0] == s.cpus[c].cur
  }

  lemma SkipKeeps(s: Sys, s': Sys, c: nat)
    requires SysOk(s) && c < |s.cpus| && SendStep(s, s', c, SendOne) && Skips(s, c)
    ensures SysOk(s')
  {
    var v := s.cpus[c].victims;
    assert CpuOk(s.cpus[c], c, |s.cpus|);
    DistinctAt(s, Victim(c));
    assert List(s, Victim(c)) == v;
    Rotated(v);
    SkipPlaces(s, s', c);
    assert ThreadsOk(s') by {
      hide PlacesOk, CpusOk, List, Distinct;
      ThreadsSame(s, s');
    }
    SkipCpus(s, s', c);
  }

  lemma Rotated(v: seq<Thread>)
    requires |v| > 0 && Distinct(v)
    ensures Distinct(v[1..] + [v[0]]) && forall u: Thread :: u in v[1..] + [v[0]] <==> u in v
  {
    RemoveHead(v);
    hide Distinct;
    AddTail(v[1..], v[0]);
  }

  lemma SkipPlaces(s: Sys, s': Sys, c: nat)
    requires PlacesOk(s) && c < |s.cpus| && SendStep(s, s', c, SendOne) && Skips(s, c)
    requires Distinct(s'.cpus[c].victims) && forall u: Thread :: u in s'.cpus[c].victims <==> u in s.cpus[c].victims
    ensures PlacesOk(s')
  {
    hide Distinct;
    assert forall r: Place | r != Victim(c) :: List(s', r) == List(s, r);
    assert List(s', Victim(c)) == s'.cpus[c].victims && List(s, Victim(c)) == s.cpus[c].victims;
    hide List;
    forall r: Place, u: Thread
      ensures u in List(s', r) <==> u in s'.place && s'.place[u] == r
    {
      assert u in List(s, r) <==> u in s.place && s.place[u] == r;
    }
    forall r: Place
      ensures Distinct(List(s', r))
    {
      assert Distinct(List(s, r));
    }
  }

  lemma ThreadsSame(s: Sys, s': Sys)
    requires ThreadsOk(s) && |s'.cpus| == |s.cpus| && s'.threads == s.threads && s'.place == s.place
    requires forall d | 0 <= d < |s.cpus| :: s'.cpus[d].cur == s.cpus[d].cur && s'.cpus[d].stage == s.cpus[d].stage
    ensures ThreadsOk(s')
  {
    forall u: Thread | u in s'.threads && u in s'.place
      ensures ThreadOk(s', u, s'.threads[u], s'.place[u])
    {
      assert ThreadOk(s, u, s.threads[u], s.place[u]);
    }
  }

  lemma SkipCpus(s: Sys, s': Sys, c: nat)
    requires CpusOk(s) && c < |s.cpus| && SendStep(s, s', c, SendOne) && Skips(s, c) && Distinct(s.cpus[c].victims)
    ensures CpusOk(s')
  {
    assert CpuOk(s.cpus[c], c, |s.cpus|) && TargetOk(s, c, s.cpus[c].mig);
    assert CpuOk(s'.cpus[c], c, |s.cpus|);
    forall d | 0 <= d < |s.cpus|
      ensures CpuOk(s'.cpus[d], d, |s.cpus|) && TargetOk(s', d, s'.cpus[d].mig)
    {
      assert CpuOk(s.cpus[d], d, |s.cpus|) && TargetOk(s, d, s.cpus[d].mig);
    }
  }

  lemma SendKeeps(s: Sys, s': Sys, c: nat)
    requires SysOk(s) && c < |s.cpus| && SendStep(s, s', c, SendOne) && !Skips(s, c)
    ensures SysOk(s')
  {
    var t, i := s.cpus[c].victims[0], s.cpus[c].mig.i;
    SendLists(s, s', c);
    hide PlacesOk, ThreadsOk, List, Distinct;
    MovedKeeps(s, s', t, Victim(c), Ready(i));
    SendThreads(s, s', c);
    SendCpus(s, s', c);
  }

  lemma SendLists(s: Sys, s': Sys, c: nat)
    requires PlacesOk(s) && c < |s.cpus| && SendStep(s, s', c, SendOne) && !Skips(s, c)
    ensures Moved(s, s', s.cpus[c].victims[0], Victim(c), Ready(s.cpus[c].mig.i))
  {
    var q, i := List(s, Victim(c)), s.cpus[c].mig.i;
    assert q[0] in q;
    At(s, Victim(c), q[0]);
    DistinctAt(s, Victim(c));
    DistinctAt(s, Ready(i));
    hide PlacesOk, Distinct;
    RemoveHead(q);
    AddTail(List(s, Ready(i)), q[0]);
    assert List(s', Victim(c)) == q[1..] && List(s', Ready(i)) == List(s, Ready(i)) + [q[0]];
  }

  lemma SendThreads(s: Sys, s': Sys, c: nat)
    requires PlacesOk(s) && ThreadsOk(s) && PlacesOk(s') && c < |s.cpus| && SendStep(s, s', c, SendOne) && !Skips(s, c)
    ensures ThreadsOk(s')
  {
    var t := s.cpus[c].victims[0];
    assert t in List(s, Victim(c));
    At(s, Victim(c), t);
    HomeOk(s, t);
    SameKeys(s');
    hide PlacesOk, Distinct, List;
    forall e | 0 <= e < |s.cpus|
      ensures CurOk(s', e)
    {
      CurFacts(s, e);
    }
    hide ThreadsOk;
    ThreadsMove(s, s', t);
  }

  lemma SendCpus(s: Sys, s': Sys, c: nat)
    requires CpusOk(s) && c < |s.cpus| && SendStep(s, s', c, SendOne) && !Skips(s, c)
    ensures CpusOk(s')
  {
    assert CpuOk(s.cpus[c], c, |s.cpus|) && TargetOk(s, c, s.cpus[c].mig);
    assert CpuOk(s'.cpus[c], c, |s.cpus|);
    forall d | 0 <= d < |s.cpus|
      ensures CpuOk(s'.cpus[d], d, |s.cpus|) && TargetOk(s', d, s'.cpus[d].mig)
    {
      assert CpuOk(s.cpus[d], d, |s.cpus|) && TargetOk(s, d, s.cpus[d].mig);
    }
  }

  // ---------------------------------------------------------------- runs

  // Every step of every processor keeps the invariant.
  lemma StepKeeps(s: Sys, s': Sys, c: nat, a: Action)
    requires SysOk(s) && Step(s, s', c, a)
    ensures SysOk(s')
  {
    hide SysOk, LeaveStep;
    if LeaveStep(s, s', c, a) {
      LeaveKeeps(s, s', c, a);
    } else {
      match a
      case Pick => PickKeeps(s, s', c);
      case Reap => ReapKeeps(s, s', c);
      case Fork(t) => ForkKeeps(s, s', c, t);
      case WakeHead(w) => WakeHeadKeeps(s, s', c, w);
      case MakeRunnable => RunnableKeeps(s, s', c);
      case TakeOne => TakeOneKeeps(s, s', c);
      case BackOne => BackOneKeeps(s, s', c);
      case SendOne => if Skips(s, c) { SkipKeeps(s, s', c); } else { SendKeeps(s, s', c); }
      case LockTarget => LockSteps(s, s', c, a);
      case UnlockTarget => LockSteps(s, s', c, a);
      case Settle => StayKeeps(s, s', c, a);
      case GoIdle => StayKeeps(s, s', c, a);
      case Unidle => StayKeeps(s, s', c, a);
      case Finish => StayKeeps(s, s', c, a);
      case ReapDone => StayKeeps(s, s', c, a);
      case _ => QuietSteps(s, s', c, a);
    }
  }

  // Each processor running its own first thread, nothing queued anywhere.
  ghost predicate Init(s: Sys) {
    && (forall c | 0 <= c < |s.cpus| ::
          s.cpus[c] == Cpu(Running, s.cpus[c].cur, [], [], [], [], NoMigration, None))
    && (forall c, d | 0 <= c < d < |s.cpus| :: s.cpus[c].cur != s.cpus[d].cur)
    && (forall w: Channel | w in s.channels :: s.channels[w] == [])
    && s.threads.Keys == s.place.Keys
    && (forall c | 0 <= c < |s.cpus| :: s.cpus[c].cur in s.threads && s.place[s.cpus[c].cur] == OnCpu(c))
    && (forall t: Thread | t in s.threads ::
          && s.place[t].OnCpu? && s.threads[t] == ThreadInfo(s.place[t].c, S_RUN)
          && s.place[t].c < |s.cpus| && s.cpus[s.place[t].c].cur == t)
  }

  lemma InitOk(s: Sys)
    requires Init(s)
    ensures SysOk(s)
  {
    InitPlaces(s);
    hide PlacesOk, List, Distinct;
  }

  lemma InitPlaces(s: Sys)
    requires Init(s)
    ensures PlacesOk(s)
  {
    forall p: Place, t: Thread
      ensures t in List(s, p) <==> t in s.place && s.place[t] == p
    {
      if t in s.place {
        assert s.place[t].OnCpu? && s.cpus[s.place[t].c].cur == t;
      }
    }
    forall p: Place
      ensures Distinct(List(s, p))
    {
      ShortLists(s, p);
    }
  }

  lemma ShortLists(s: Sys, p: Place)
    requires Init(s)
    ensures Distinct(List(s, p))
  {
    assert |List(s, p)| <= 1;
  }

  ghost predicate Run(states: seq<Sys>, acts: seq<(nat, Action)>) {
    && |states| == |acts| + 1 && Init(states[0])
    && forall i | 0 <= i < |acts| :: Step(states[i], states[i + 1], acts[i].0, acts[i].1)
  }

  lemma {:induction false} RunOk(states: seq<Sys>, acts: seq<(nat, Action)>, n: nat)
    requires Run(states, acts) && n <= |acts|
    ensures SysOk(states[n])
  {
    hide SysOk, Step, Init;
    if n == 0 {
      InitOk(states[0]);
    } else {
      RunOk(states, acts, n - 1);
      StepKeeps(states[n - 1], states[n], acts[n - 1].0, acts[n - 1].1);
    }
  }

  // ---------------------------------------------------------------- what every run guarantees

  /**
   At every point of every run each thread is in exactly one place and there once, and no
   thread is current on two processors.
   */
  lemma OnePlace(states: seq<Sys>, acts: seq<(nat, Action)>, n: nat, t: Thread, p: Place, q: Place)
    requires Run(states, acts) && n <= |acts| && t in states[n].threads
    ensures var s := states[n];
            && t in s.place && t in List(s, s.place[t])
            && (t in List(s, p) && t in List(s, q) ==> p == q)
            && (forall i, j | 0 <= i < |List(s, p)| && 0 <= j < |List(s, p)| && List(s, p)[i] == List(s, p)[j] ::
              i == j)
            && (forall c, d | 0 <= c < |s.cpus| && 0 <= d < |s.cpus| && s.cpus[c].cur == t && s.cpus[d].cur == t ::
              c == d)
  {
    hide Step, Init, CpusOk, List;
    RunOk(states, acts, n);
    var s := states[n];
    DistinctAt(s, p);
    forall c, d | 0 <= c < |s.cpus| && 0 <= d < |s.cpus| && s.cpus[c].cur == t && s.cpus[d].cur == t
      ensures c == d
    {
      CurFacts(s, c);
      CurFacts(s, d);
    }
  }

  /**
   At every point of every run a queued thread belongs to that processor and is S_READY; it is
   current nowhere, except on its own processor while that one has not left its stack yet.
   */
  lemma QueuedThreads(states: seq<Sys>, acts: seq<(nat, Action)>, n: nat, c: nat, t: Thread, d: nat)
    requires Run(states, acts) && n <= |acts| && c < |states[n].cpus| && t in states[n].cpus[c].runq
             && d < |states[n].cpus|
    ensures var s := states[n];
            && t in s.threads && s.threads[t] == ThreadInfo(c, S_READY)
            && (s.cpus[d].cur == t ==> d == c && (s.cpus[c].stage.Switching? || s.cpus[c].stage.Idle?))
  {
    hide Step, Init, CpusOk, Distinct;
    RunOk(states, acts, n);
    var s := states[n];
    assert t in List(s, Ready(c));
    At(s, Ready(c), t);
    HomeOk(s, t);
    CurFacts(s, d);
    assert t !in List(s, OnCpu(c));
  }

  /**
   In every run, a thread is destroyed only after it has exited and when no processor has it as
   its current thread.
   */
  lemma DestroyedAfterLeaving(states: seq<Sys>, acts: seq<(nat, Action)>, n: nat, t: Thread, d: nat)
    requires Run(states, acts) && n < |acts| && t in states[n].threads && t !in states[n + 1].threads
             && d < |states[n].cpus|
    ensures acts[n].1 == Reap && states[n].threads[t].state == S_ZOMBIE && states[n].cpus[d].cur != t
  {
    RunOk(states, acts, n);
    var s, s', c, a := states[n], states[n + 1], acts[n].0, acts[n].1;
    assert Step(s, s', c, a);
    hide SysOk, Init, List;
    Destroys(s, s', c, a, t);
    ReapIsSafe(s, s', c, d);
  }

  lemma Destroys(s: Sys, s': Sys, c: nat, a: Action, t: Thread)
    requires Step(s, s', c, a) && t in s.threads && t !in s'.threads
    ensures a.Reap? && SwitchStep(s, s', c, a) && t == s.cpus[c].zombies[0]
  {
    hide List;
  }

  predicate Migrating(a: Action) {
    || a.Start? || a.Count? || a.Decide? || a.TakeOne? || a.TakeDone? || a.NextTarget? || a.LockTarget?
    || a.SendOne? || a.UnlockTarget? || a.SendDone? || a.LockOwn? || a.BackOne? || a.BackDone?
  }

  // On a run queue, or held for migration.
  predicate Queued(s: Sys, t: Thread) {
    t in s.place && (s.place[t].Ready? || s.place[t].Victim?)
  }

  /**
   Migration loses, duplicates and invents no queued thread, whatever other processors do
   between its steps: a step of it keeps which threads are queued, and everything about the
   others.
   */
  lemma MigrationConserves(s: Sys, s': Sys, c: nat, a: Action, t: Thread)
    requires SysOk(s) && Step(s, s', c, a) && Migrating(a)
    ensures (t in s'.threads <==> t in s.threads) && (Queued(s', t) <==> Queued(s, t))
    ensures t in s.threads ==> s'.threads[t].state == s.threads[t].state
    ensures t in s.threads && !Queued(s, t) ==>
              s'.threads[t] == s.threads[t] && t in s.place && t in s'.place && s'.place[t] == s.place[t]
  {
    hide Distinct, CpusOk, ThreadsOk, LeaveStep, SwitchStep, WakeStep;
    assert TakeStep(s, s', c, a) || SendStep(s, s', c, a) by {
      NotOthers(s, s', c, a);
    }
    SameKeys(s);
    if a.TakeOne? {
      assert s.cpus[c].runq[|s.cpus[c].runq| - 1] in List(s, Ready(c));
    } else if a.SendOne? || a.BackOne? {
      assert s.cpus[c].victims[0] in List(s, Victim(c));
    }
  }

  lemma NotOthers(s: Sys, s': Sys, c: nat, a: Action)
    requires c < |s.cpus| && Migrating(a)
    ensures !LeaveStep(s, s', c, a) && !SwitchStep(s, s', c, a) && !WakeStep(s, s', c, a)
  {}

  /**
   Migration at every point of every run: it never takes from an empty list, and when it ends no
   thread is left in its hands.
   */
  lemma MigrationSafe(states: seq<Sys>, acts: seq<(nat, Action)>, n: nat, c: nat)
    requires Run(states, acts) && n <= |acts| && c < |states[n].cpus|
    ensures var cpu := states[n].cpus[c];
            && (cpu.mig.NoMigration? ==> cpu.victims == [])
            && (cpu.mig.Taking? && cpu.mig.left > 0 ==> |cpu.runq| > 0)
            && (cpu.mig.Sending? && cpu.mig.toSend > 0 ==> |cpu.victims| > 0)
  {
    hide Step, Init, PlacesOk, ThreadsOk;
    RunOk(states, acts, n);
    assert CpuOk(states[n].cpus[c], c, |states[n].cpus|);
  }

  // It hands over only threads that are current nowhere, and fills no queue beyond the share.
  lemma HandOver(s: Sys, s': Sys, c: nat, d: nat)
    requires SysOk(s) && Step(s, s', c, SendOne) && c < |s.cpus| && d < |s.cpus| && !Skips(s, c)
    ensures var t, i := s.cpus[c].victims[0], s.cpus[c].mig.i;
            && s.cpus[d].cur != t
            && s'.cpus[i].runq == s.cpus[i].runq + [t] && |s'.cpus[i].runq| <= s.cpus[c].mig.share
            && s'.threads[t] == ThreadInfo(i, S_READY)
  {
    hide Distinct, CpusOk, LeaveStep, SwitchStep, WakeStep, TakeStep;
    NotOthers(s, s', c, SendOne);
    assert SendStep(s, s', c, SendOne) by {
      OnlySends(s, s', c);
    }
    var t := s.cpus[c].victims[0];
    assert t in List(s, Victim(c));
    At(s, Victim(c), t);
    HomeOk(s, t);
    CurFacts(s, d);
  }

  lemma OnlySends(s: Sys, s': Sys, c: nat)
    requires Step(s, s', c, SendOne)
    ensures c < |s.cpus| && SendStep(s, s', c, SendOne)
  {}
}
