/**
 Processes forking, exiting and waiting in any order. A step is one stretch of
 code under pidlock; cv_wait in pid_wait ends one step and starts another.
 */
module PidRuns {
  import opened Basics
  import opened PidTable

  // A process, told apart from every other that ever existed, whatever its pid.
  type Process = nat

  // A thread of process who is asleep on a child, or has been woken and will take pidlock again.
  datatype Waiter = Waiter(who: Process, woken: bool)

  /**
   procs: the processes that have a pid, with their p_pid. started: those that have begun to
   run. owner: which process each table entry was made for. parent, exits and delivered are
   history: who forked a process, the status it exited with, the status a wait returned for it.
   waits: the pids that someone sleeps on.
   */
  datatype Sys = Sys(
    table: Table,
    procs: map<Process, nat>,
    started: set<Process>,
    owner: map<nat, Process>,
    parent: map<Process, Process>,
    exits: map<Process, int>,
    delivered: map<Process, int>,
    waits: map<nat, Waiter>,
    unused: Process)

  // ---------------------------------------------------------------- the invariant

  // The table as a map from pids to their entries.
  ghost function View(s: Slots): (v: map<nat, PidInfo>)
    requires |s| == PROCS_MAX
    ensures forall pid: nat :: pid in v <==> Get(s, pid).Some?
    ensures forall pid: nat | pid in v :: v[pid] == Get(s, pid).value
  {
    map pid: nat | pid in (set i | 0 <= i < PROCS_MAX && s[i].Some? :: s[i].value.pid) && Get(s, pid).Some? ::
      Get(s, pid).value
  }

  // One entry of the table, seen with the process p it was made for.
  ghost predicate EntryOk(s: Sys, pid: nat, e: PidInfo, p: Process) {
    && pid != INVALID_PID && p < s.unused
    && (e.exited <==> p !in s.procs)
    && (p in s.procs ==> s.procs[p] == pid && p !in s.exits)
    && (e.exited ==> e.ppid != INVALID_PID && p in s.exits && s.exits[p] == e.status && p !in s.delivered)
    && (e.ppid != INVALID_PID ==> ParentOk(s, e.ppid, p))
  }

  // ppid names the live process that forked p, and not another one that got the same number.
  ghost predicate ParentOk(s: Sys, ppid: nat, p: Process) {
    p in s.parent && s.parent[p] in s.procs && s.procs[s.parent[p]] == ppid
  }

  ghost predicate WaitOk(s: Sys, v: map<nat, PidInfo>, pid: nat, w: Waiter) {
    && pid in v && (w.woken <==> v[pid].exited)
    && w.who in s.procs && w.who in s.started && s.procs[w.who] == v[pid].ppid && v[pid].ppid != INVALID_PID
  }

  // Every process that has a pid has its entry, and no two entries are for the same process.
  ghost predicate OwnersOk(s: Sys) {
    && (forall p: nat, q: nat | p in s.owner && q in s.owner && p != q :: s.owner[p] != s.owner[q])
    && (forall p: Process | p in s.procs :: s.procs[p] in s.owner && s.owner[s.procs[p]] == p)
  }

  // What a wait returned is what the process exited with.
  ghost predicate HistoryOk(s: Sys) {
    && (forall p: Process | p in s.delivered :: p in s.exits && s.delivered[p] == s.exits[p])
    && (forall p: Process | p in s.exits || p in s.parent || p in s.started :: p < s.unused)
    && (forall p: Process | p in s.parent :: s.parent[p] in s.started && s.parent[p] < p)
  }

  ghost predicate Inv(s: Sys, v: map<nat, PidInfo>) {
    && s.owner.Keys == v.Keys
    && (forall pid: nat | pid in v :: EntryOk(s, pid, v[pid], s.owner[pid]))
    && (forall pid: nat | pid in s.waits :: WaitOk(s, v, pid, s.waits[pid]))
    && OwnersOk(s) && HistoryOk(s)
  }

  ghost predicate SysOk(s: Sys) {
    TableOk(s.table) && Inv(s, View(s.table.slots))
  }

  // ---------------------------------------------------------------- steps

  datatype Action =
    | Fork(pid: nat)
    | Start(child: Process)
    | Unfork(pid: nat)
    | Disown(pid: nat)
    | Exit(status: int)
    | Look(theirpid: int, flags: int)
    | Collect(pid: nat, flags: int)
    | Sleep(pid: nat, flags: int)
    | Resume(pid: nat)

  // p is a process that is running.
  predicate Running(s: Sys, p: Process) {
    p in s.procs && p in s.started && |s.table.slots| == PROCS_MAX
  }

  // The table after the slots change and the count is kept right.
  predicate Rewritten(t: Table, slots: Slots) {
    TableOk(t) && t.slots == slots
  }

  ghost predicate ForkStep(s: Sys, s': Sys, p: Process, pid: nat)
    requires Running(s, p)
  {
    && PID_MIN <= pid <= PID_MAX && s.table.slots[pid % PROCS_MAX].None?
    && Rewritten(s'.table, Put(s.table.slots, pid, Some(PidInfo(pid, s.procs[p], false, 0xbeef))))
    && s' == s.(table := s'.table, procs := s.procs[s.unused := pid], owner := s.owner[pid := s.unused],
                parent := s.parent[s.unused := p], unused := s.unused + 1)
  }

  // Undoing a fork: the child has not run, and the caller is not waiting for it.
  ghost predicate UnforkStep(s: Sys, s': Sys, p: Process, pid: nat)
    requires Running(s, p)
  {
    var e := Get(s.table.slots, pid);
    && pid !in s.waits && pid in s.owner && s.owner[pid] !in s.started && s.owner[pid] in s.procs
    && e.Some? && e.value.ppid == s.procs[p] && !e.value.exited
    && Rewritten(s'.table, Put(s.table.slots, pid, None))
    && s' == s.(table := s'.table, procs := s.procs - {s.owner[pid]}, owner := s.owner - {pid})
  }

  ghost predicate DisownStep(s: Sys, s': Sys, p: Process, pid: nat)
    requires Running(s, p)
  {
    var e := Get(s.table.slots, pid);
    && pid !in s.waits && e.Some? && e.value.ppid == s.procs[p]
    && Rewritten(s'.table, Put(s.table.slots, pid, Orphan(e.value)))
    && s' == s.(table := s'.table, owner := if e.value.exited then s.owner - {pid} else s.owner)
  }

  // A process with a thread asleep in pid_wait does not exit: it is that thread that would.
  ghost predicate ExitStep(s: Sys, s': Sys, p: Process, status: int)
    requires Running(s, p)
  {
    var slots, cur := s.table.slots, s.procs[p];
    && (forall pid: nat | pid in s.waits :: s.waits[pid].who != p)
    && Get(slots, cur).Some? && !Get(slots, cur).value.exited
    && Rewritten(s'.table, AfterExit(slots, cur, status))
    && (forall pid: nat :: pid in s'.owner <==> pid in s.owner && Get(s'.table.slots, pid).Some?)
    && (forall pid: nat | pid in s'.owner :: s'.owner[pid] == s.owner[pid])
    && s' == s.(table := s'.table, procs := s.procs - {p}, owner := s'.owner, exits := s.exits[p := status],
                waits := if cur in s.waits then s.waits[cur := Waiter(s.waits[cur].who, true)] else s.waits)
  }

  ghost predicate CollectStep(s: Sys, s': Sys, p: Process, pid: nat, flags: int)
    requires Running(s, p)
  {
    var r := WaitResult(s.table.slots, s.procs[p], pid, flags);
    && pid !in s.waits && pid in s.owner && r.Status?
    && Rewritten(s'.table, Put(s.table.slots, pid, None))
    && s' == s.(table := s'.table, owner := s.owner - {pid}, delivered := s.delivered[s.owner[pid] := r.status])
  }

  ghost predicate ResumeStep(s: Sys, s': Sys, p: Process, pid: nat)
    requires Running(s, p)
  {
    var e := Get(s.table.slots, pid);
    && pid in s.waits && s.waits[pid] == Waiter(p, true) && pid in s.owner && e.Some?
    && Rewritten(s'.table, Put(s.table.slots, pid, None))
    && s' == s.(table := s'.table, owner := s.owner - {pid}, waits := s.waits - {pid},
                delivered := s.delivered[s.owner[pid] := e.value.status])
  }

  ghost predicate Step(s: Sys, s': Sys, p: Process, a: Action) {
    && Running(s, p)
    && match a
       case Fork(pid) => ForkStep(s, s', p, pid)
       case Start(child) => child in s.procs && s' == s.(started := s.started + {child})
       case Unfork(pid) => UnforkStep(s, s', p, pid)
       case Disown(pid) => DisownStep(s, s', p, pid)
       case Exit(status) => ExitStep(s, s', p, status)
       case Look(pid, flags) =>
         var r := WaitResult(s.table.slots, s.procs[p], pid, flags);
         (r.Failed? || r.NotYet?) && s' == s
       case Collect(pid, flags) => CollectStep(s, s', p, pid, flags)
       case Sleep(pid, flags) =>
         && pid !in s.waits && WaitResult(s.table.slots, s.procs[p], pid, flags).Sleeps?
         && s' == s.(waits := s.waits[pid := Waiter(p, false)])
       case Resume(pid) => ResumeStep(s, s', p, pid)
  }

  // ---------------------------------------------------------------- the table as a map

  lemma ViewPut(s: Slots, pid: nat, e: Option<PidInfo>)
    requires |s| == PROCS_MAX && (s[pid % PROCS_MAX].Some? ==> s[pid % PROCS_MAX].value.pid == pid)
    requires e.Some? ==> e.value.pid == pid
    ensures View(Put(s, pid, e)) == if e.Some? then View(s)[pid := e.value] else View(s) - {pid}
  {
    var v := View(s);
    var v' := if e.Some? then v[pid := e.value] else v - {pid};
    forall q: nat
      ensures Get(Put(s, pid, e), q) == if q == pid then e else Get(s, q)
    {}
    hide View;
    assert View(Put(s, pid, e)).Keys == v'.Keys;
  }

  lemma ViewSlot(s: Slots, pid: nat)
    requires |s| == PROCS_MAX && pid in View(s)
    ensures s[pid % PROCS_MAX] == Some(View(s)[pid]) && View(s)[pid].pid == pid
  {}

  // ---------------------------------------------------------------- each step keeps the invariant

  // An entry stays good while nothing about its process and its parent changes.
  lemma EntryFrame(s: Sys, s': Sys, pid: nat, e: PidInfo, p: Process)
    requires EntryOk(s, pid, e, p) && s.unused <= s'.unused
    requires (p in s'.procs <==> p in s.procs) && (p in s.procs ==> s'.procs[p] == s.procs[p])
    requires (p in s'.exits <==> p in s.exits) && (p in s.exits ==> s'.exits[p] == s.exits[p])
    requires p in s'.delivered ==> p in s.delivered
    requires e.ppid != INVALID_PID ==> ParentOk(s', e.ppid, p)
    ensures EntryOk(s', pid, e, p)
  {}

  lemma UnusedNoProcess(s: Sys, v: map<nat, PidInfo>)
    requires Inv(s, v)
    ensures s.unused !in s.procs && s.unused !in s.exits && s.unused !in s.parent
    ensures forall pid: nat | pid in s.owner :: s.owner[pid] != s.unused
  {
    hide ParentOk, WaitOk;
    forall pid: nat | pid in s.owner
      ensures s.owner[pid] != s.unused
    {
      assert EntryOk(s, pid, v[pid], s.owner[pid]);
    }
  }

  // The new process and its entry, before anything is said about the others.
  ghost predicate Forked(s: Sys, s': Sys, p: Process, pid: nat) {
    && p in s.procs && p in s.started && pid !in s.owner && pid != INVALID_PID
    && s' == s.(table := s'.table, procs := s.procs[s.unused := pid], owner := s.owner[pid := s.unused],
                parent := s.parent[s.unused := p], unused := s.unused + 1)
    && s.unused !in s.procs && s.unused !in s.exits && s.unused !in s.parent
    && (forall pid: nat | pid in s.owner :: s.owner[pid] != s.unused)
  }

  lemma ForkLinks(s: Sys, s': Sys, p: Process, pid: nat)
    requires OwnersOk(s) && HistoryOk(s) && Forked(s, s', p, pid)
    ensures OwnersOk(s') && HistoryOk(s')
  {}

  lemma ForkEntry(s: Sys, s': Sys, p: Process, pid: nat, q: nat, e: PidInfo)
    requires Forked(s, s', p, pid) && q in s.owner && EntryOk(s, q, e, s.owner[q])
    ensures EntryOk(s', q, e, s'.owner[q])
  {
    EntryFrame(s, s', q, e, s.owner[q]);
  }

  lemma ForkWait(s: Sys, s': Sys, v: map<nat, PidInfo>, p: Process, pid: nat, q: nat, e: PidInfo)
    requires Forked(s, s', p, pid) && pid !in v && q in s.waits && WaitOk(s, v, q, s.waits[q])
    ensures WaitOk(s', v[pid := e], q, s'.waits[q])
  {}

  lemma ForkReady(s: Sys, s': Sys, v: map<nat, PidInfo>, p: Process, pid: nat)
    requires Inv(s, v) && p in s.procs && p in s.started && pid !in v && pid != INVALID_PID
    requires s' == s.(table := s'.table, procs := s.procs[s.unused := pid], owner := s.owner[pid := s.unused],
                      parent := s.parent[s.unused := p], unused := s.unused + 1)
    ensures Forked(s, s', p, pid) && OwnersOk(s') && HistoryOk(s')
    ensures EntryOk(s', pid, PidInfo(pid, s.procs[p], false, 0xbeef), s.unused)
  {
    hide WaitOk;
    UnusedNoProcess(s, v);
    assert p < s.unused;
    ForkLinks(s, s', p, pid);
  }

  lemma ForkInv(s: Sys, s': Sys, v: map<nat, PidInfo>, p: Process, pid: nat)
    requires Inv(s, v) && p in s.procs && p in s.started && pid !in v && pid != INVALID_PID
    requires s' == s.(table := s'.table, procs := s.procs[s.unused := pid], owner := s.owner[pid := s.unused],
                      parent := s.parent[s.unused := p], unused := s.unused + 1)
    ensures Inv(s', v[pid := PidInfo(pid, s.procs[p], false, 0xbeef)])
  {
    var e := PidInfo(pid, s.procs[p], false, 0xbeef);
    var v' := v[pid := e];
    ForkReady(s, s', v, p, pid);
    hide OwnersOk, HistoryOk, EntryOk, WaitOk, Forked;
    forall q: nat | q in v' && q != pid
      ensures EntryOk(s', q, v'[q], s'.owner[q])
    {
      ForkEntry(s, s', p, pid, q, v[q]);
    }
    forall q: nat | q in s'.waits
      ensures WaitOk(s', v', q, s'.waits[q])
    {
      ForkWait(s, s', v, p, pid, q, e);
    }
  }

  // An entry goes away: its process never ran, or is dead and asked for by nobody any more.
  ghost predicate Removed(s: Sys, s': Sys, pid: nat) {
    && pid in s.owner
    && var c := s.owner[pid];
       && (c in s.procs ==> c !in s.started)
       && (s'.delivered == s.delivered || (c in s.exits && s'.delivered == s.delivered[c := s.exits[c]]))
       && s' == s.(table := s'.table, procs := s.procs - {c}, owner := s.owner - {pid}, waits := s.waits - {pid},
                   delivered := s'.delivered)
  }

  lemma RemoveLinks(s: Sys, s': Sys, pid: nat)
    requires OwnersOk(s) && HistoryOk(s) && Removed(s, s', pid)
    ensures OwnersOk(s') && HistoryOk(s')
  {}

  lemma RemoveEntry(s: Sys, s': Sys, pid: nat, q: nat, e: PidInfo)
    requires OwnersOk(s) && HistoryOk(s) && Removed(s, s', pid) && q in s'.owner && EntryOk(s, q, e, s.owner[q])
    ensures EntryOk(s', q, e, s'.owner[q])
  {
    assert s.owner[q] != s.owner[pid];
    EntryFrame(s, s', q, e, s.owner[q]);
  }

  lemma RemoveWait(s: Sys, s': Sys, v: map<nat, PidInfo>, pid: nat, q: nat)
    requires Removed(s, s', pid) && q in s'.waits && WaitOk(s, v, q, s.waits[q])
    ensures WaitOk(s', v - {pid}, q, s'.waits[q])
  {}

  lemma RemoveInv(s: Sys, s': Sys, v: map<nat, PidInfo>, pid: nat)
    requires Inv(s, v) && Removed(s, s', pid)
    ensures Inv(s', v - {pid})
  {
    RemoveLinks(s, s', pid);
    assert s'.owner.Keys == (v - {pid}).Keys;
    assert s'.waits.Keys <= s.waits.Keys && forall q: nat | q in s'.waits :: s'.waits[q] == s.waits[q];
    hide OwnersOk, HistoryOk, EntryOk, WaitOk, Removed;
    forall q: nat | q in v - {pid}
      ensures EntryOk(s', q, (v - {pid})[q], s'.owner[q])
    {
      RemoveEntry(s, s', pid, q, v[q]);
    }
    forall q: nat | q in s'.waits
      ensures WaitOk(s', v - {pid}, q, s'.waits[q])
    {
      RemoveWait(s, s', v, pid, q);
    }
  }

  // The parent lets go of a child that is still alive.
  lemma LetGoInv(s: Sys, s': Sys, v: map<nat, PidInfo>, pid: nat)
    requires Inv(s, v) && pid in v && pid !in s.waits && !v[pid].exited && s' == s.(table := s'.table)
    ensures Inv(s', v[pid := v[pid].(ppid := INVALID_PID)])
  {
    hide OwnersOk, HistoryOk, EntryOk, WaitOk;
    var v' := v[pid := v[pid].(ppid := INVALID_PID)];
    assert OwnersOk(s') && HistoryOk(s') by {
      StartedOld(s);
      LinksSame(s, s');
    }
    assert s'.owner.Keys == v'.Keys;
    forall q: nat | q in v'
      ensures EntryOk(s', q, v'[q], s'.owner[q])
    {
      LetGoEntry(s, s', q, v[q], v'[q]);
    }
    forall q: nat | q in s'.waits
      ensures WaitOk(s', v', q, s'.waits[q])
    {
      LetGoWait(s, s', v, v', q);
    }
  }

  lemma LetGoEntry(s: Sys, s': Sys, q: nat, e: PidInfo, e': PidInfo)
    requires q in s.owner && EntryOk(s, q, e, s.owner[q]) && s' == s.(table := s'.table)
    requires e' == e || (!e.exited && e' == e.(ppid := INVALID_PID))
    ensures EntryOk(s', q, e', s'.owner[q])
  {}

  lemma LetGoWait(s: Sys, s': Sys, v: map<nat, PidInfo>, v': map<nat, PidInfo>, q: nat)
    requires q in s.waits && WaitOk(s, v, q, s.waits[q]) && s' == s.(table := s'.table)
    requires q in v ==> q in v' && v'[q] == v[q]
    ensures WaitOk(s', v', q, s'.waits[q])
  {}

  lemma LinksSame(s: Sys, s': Sys)
    requires OwnersOk(s) && HistoryOk(s)
    requires s'.owner == s.owner && s'.procs == s.procs && s'.delivered == s.delivered && s'.exits == s.exits
    requires s'.parent == s.parent && s'.unused == s.unused && s.started <= s'.started
    requires forall p: Process | p in s'.started :: p < s.unused
    ensures OwnersOk(s') && HistoryOk(s')
  {}

  // Only who has started changes, or who sleeps.
  lemma QuietInv(s: Sys, s': Sys, v: map<nat, PidInfo>)
    requires Inv(s, v) && s' == s.(started := s'.started, waits := s'.waits) && s.started <= s'.started
    requires forall p: Process | p in s'.started :: p < s.unused
    requires forall q: nat | q in s'.waits && q !in s.waits :: WaitOk(s', v, q, s'.waits[q])
    requires forall q: nat | q in s.waits :: q in s'.waits && s'.waits[q] == s.waits[q]
    ensures Inv(s', v)
  {
    LinksSame(s, s');
    hide OwnersOk, HistoryOk;
    forall q: nat | q in v
      ensures EntryOk(s', q, v[q], s'.owner[q])
    {
      EntryFrame(s, s', q, v[q], s.owner[q]);
    }
    hide EntryOk;
    forall q: nat | q in s'.waits
      ensures WaitOk(s', v, q, s'.waits[q])
    {
      if q in s.waits {
        assert WaitOk(s, v, q, s.waits[q]);
      }
    }
  }

  // ---------------------------------------------------------------- exit

  // The table after process p, with pid cur, has exited, as a map.
  ghost predicate ExitView(v: map<nat, PidInfo>, v': map<nat, PidInfo>, cur: nat, status: int) {
    && cur in v
    && (forall q: nat :: q in v' <==>
          q in v && (if q == cur then v[q].ppid != INVALID_PID else !(v[q].ppid == cur && v[q].exited)))
    && (forall q: nat | q in v' :: v'[q] ==
          if q == cur then v[q].(exited := true, status := status)
          else if v[q].ppid == cur then v[q].(ppid := INVALID_PID) else v[q])
  }

  ghost predicate Exited(s: Sys, s': Sys, p: Process, cur: nat, status: int) {
    && p in s.procs && s.procs[p] == cur
    && s' == s.(table := s'.table, procs := s.procs - {p}, owner := s'.owner, exits := s.exits[p := status],
                waits := if cur in s.waits then s.waits[cur := Waiter(s.waits[cur].who, true)] else s.waits)
    && (forall pid: nat | pid in s'.owner :: pid in s.owner && s'.owner[pid] == s.owner[pid])
    && (forall pid: nat | pid in s.waits :: s.waits[pid].who != p)
  }

  lemma ExitLinks(s: Sys, s': Sys, p: Process, cur: nat, status: int)
    requires OwnersOk(s) && HistoryOk(s) && Exited(s, s', p, cur, status) && p !in s.exits && p < s.unused
    requires forall q: Process | q in s.procs && q != p :: s.procs[q] in s'.owner
    ensures OwnersOk(s') && HistoryOk(s')
  {}

  // A process other than the exiting one is the parent only if the entry says another pid.
  lemma ExitEntry(s: Sys, s': Sys, v: map<nat, PidInfo>, v': map<nat, PidInfo>, p: Process, cur: nat, status: int,
        q: nat)
    requires OwnersOk(s) && HistoryOk(s) && Exited(s, s', p, cur, status) && ExitView(v, v', cur, status)
    requires q in v' && q in s'.owner && q in s.owner && EntryOk(s, q, v[q], s.owner[q]) && s.owner[cur] == p
             && !v[cur].exited
    ensures EntryOk(s', q, v'[q], s'.owner[q])
  {
    var c := s.owner[q];
    if q != cur {
      assert c != p;
      assert v[q].ppid != INVALID_PID && v[q].ppid != cur ==> ParentOk(s', v[q].ppid, c);
    }
  }

  lemma ExitWait(s: Sys, s': Sys, v: map<nat, PidInfo>, v': map<nat, PidInfo>, p: Process, cur: nat, status: int,
        q: nat)
    requires OwnersOk(s) && Exited(s, s', p, cur, status) && ExitView(v, v', cur, status)
    requires q in s.waits && WaitOk(s, v, q, s.waits[q])
    ensures q in s'.waits && WaitOk(s', v', q, s'.waits[q])
  {
    var who := s.waits[q].who;
    assert s.procs[who] != cur by {
      assert s.owner[s.procs[who]] == who;
    }
  }

  lemma ExitFacts(s: Sys, s': Sys, v: map<nat, PidInfo>, v': map<nat, PidInfo>, p: Process, cur: nat, status: int)
    requires Inv(s, v) && Exited(s, s', p, cur, status) && ExitView(v, v', cur, status) && !v[cur].exited
    requires s'.owner.Keys == v'.Keys
    ensures s.owner[cur] == p && s'.waits.Keys == s.waits.Keys
    ensures (forall q: nat | q in v' :: q in v && q in s.owner) && OwnersOk(s') && HistoryOk(s')
  {
    hide WaitOk, ParentOk;
    assert s.owner[cur] == p;
    assert EntryOk(s, cur, v[cur], p);
    forall q: Process | q in s.procs && q != p
      ensures s.procs[q] in s'.owner
    {
      LiveStays(s, v, v', p, cur, status, q);
    }
    ExitLinks(s, s', p, cur, status);
  }

  // The entry of a process that goes on living is not dropped.
  lemma LiveStays(s: Sys, v: map<nat, PidInfo>, v': map<nat, PidInfo>, p: Process, cur: nat, status: int, q: Process)
    requires Inv(s, v) && ExitView(v, v', cur, status) && p in s.procs && s.procs[p] == cur && q in s.procs && q != p
    ensures s.procs[q] in v'
  {
    hide WaitOk, ParentOk, HistoryOk;
    var pid := s.procs[q];
    assert s.owner[pid] == q && s.owner[cur] == p;
    assert EntryOk(s, pid, v[pid], q);
  }

  lemma ExitInv(s: Sys, s': Sys, v: map<nat, PidInfo>, v': map<nat, PidInfo>, p: Process, cur: nat, status: int)
    requires Inv(s, v) && Exited(s, s', p, cur, status) && ExitView(v, v', cur, status) && !v[cur].exited
    requires s'.owner.Keys == v'.Keys
    ensures Inv(s', v')
  {
    ExitFacts(s, s', v, v', p, cur, status);
    hide OwnersOk, HistoryOk, EntryOk, WaitOk, Exited, ExitView;
    forall q: nat | q in v'
      ensures EntryOk(s', q, v'[q], s'.owner[q])
    {
      ExitEntry(s, s', v, v', p, cur, status, q);
    }
    forall q: nat | q in s'.waits
      ensures WaitOk(s', v', q, s'.waits[q])
    {
      ExitWait(s, s', v, v', p, cur, status, q);
    }
  }

  lemma ViewExit(s: Slots, cur: nat, status: int)
    requires |s| == PROCS_MAX && cur != INVALID_PID && cur in View(s) && !View(s)[cur].exited
             && View(s)[cur].ppid != cur
    ensures ExitView(View(s), View(AfterExit(s, cur, status)), cur, status)
  {
    hide View;
    var r := AfterExit(s, cur, status);
    forall q: nat
      ensures Get(r, q) == GetAfter(Get(s, q), cur, status, q)
    {
      ExitLookup(s, cur, status, q);
    }
  }

  // One lookup after an exit.
  function GetAfter(e: Option<PidInfo>, cur: nat, status: int, q: nat): Option<PidInfo> {
    if e.None? then None
    else if q == cur then if e.value.ppid == INVALID_PID then None else Some(e.value.(exited := true, status := status))
    else Disowned(e, cur)
  }

  lemma ExitLookup(s: Slots, cur: nat, status: int, q: nat)
    requires |s| == PROCS_MAX && Get(s, cur).Some? && !Get(s, cur).value.exited && Get(s, cur).value.ppid != cur
    ensures Get(AfterExit(s, cur, status), q) == GetAfter(Get(s, q), cur, status, q)
  {
    assert Disowned(s[cur % PROCS_MAX], cur) == s[cur % PROCS_MAX];
  }

  // ---------------------------------------------------------------- runs

  lemma ForkKeeps(s: Sys, s': Sys, p: Process, pid: nat)
    requires SysOk(s) && Step(s, s', p, Fork(pid))
    ensures SysOk(s')
  {
    var slots, v := s.table.slots, View(s.table.slots);
    assert TableOk(s'.table) && |slots| == |s'.table.slots| == PROCS_MAX;
    assert pid !in v;
    ViewPut(slots, pid, Some(PidInfo(pid, s.procs[p], false, 0xbeef)));
    hide TableOk, View, Inv;
    ForkInv(s, s', v, p, pid);
  }

  lemma RemoveKeeps(s: Sys, s': Sys, p: Process, a: Action)
    requires SysOk(s) && Step(s, s', p, a) && (a.Unfork? || a.Collect? || a.Resume?)
    ensures SysOk(s')
  {
    var slots, v := s.table.slots, View(s.table.slots);
    assert TableOk(s'.table) && |slots| == |s'.table.slots| == PROCS_MAX;
    assert s'.table.slots == Put(slots, a.pid, None) && a.pid in v;
    RemoveReady(s, s', v, p, a);
    hide TableOk, View, Inv, Step, Removed, Put;
    ViewSlot(slots, a.pid);
    ViewPut(slots, a.pid, None);
    RemoveInv(s, s', v, a.pid);
  }

  // Whoever removes an entry may: its process never ran, or is dead and the status was its own.
  lemma RemoveReady(s: Sys, s': Sys, v: map<nat, PidInfo>, p: Process, a: Action)
    requires |s.table.slots| == PROCS_MAX && v == View(s.table.slots)
    requires Inv(s, v) && Step(s, s', p, a) && (a.Unfork? || a.Collect? || a.Resume?)
    ensures Removed(s, s', a.pid)
  {
    hide TableOk, View, OwnersOk, HistoryOk, ParentOk, Put;
    var c := s.owner[a.pid];
    assert EntryOk(s, a.pid, v[a.pid], c);
    if a.Resume? {
      assert WaitOk(s, v, a.pid, s.waits[a.pid]);
    } else {
      assert s.waits - {a.pid} == s.waits;
    }
    assert !a.Unfork? ==> s.procs - {c} == s.procs;
  }

  lemma DisownKeeps(s: Sys, s': Sys, p: Process, pid: nat)
    requires SysOk(s) && Step(s, s', p, Disown(pid))
    ensures SysOk(s')
  {
    var slots, v := s.table.slots, View(s.table.slots);
    assert s'.table.slots == Put(slots, pid, Orphan(v[pid])) && pid in v;
    ViewSlot(slots, pid);
    hide View, Put;
    ViewPut(slots, pid, Orphan(v[pid]));
    if v[pid].exited {
      DropDead(s, s', v, pid);
    } else {
      hide Inv;
      LetGoInv(s, s', v, pid);
    }
  }

  lemma DropDead(s: Sys, s': Sys, v: map<nat, PidInfo>, pid: nat)
    requires Inv(s, v) && pid in v && v[pid].exited && pid !in s.waits
    requires s' == s.(table := s'.table, owner := s.owner - {pid})
    ensures Inv(s', v - {pid})
  {
    assert EntryOk(s, pid, v[pid], s.owner[pid]);
    assert s.procs - {s.owner[pid]} == s.procs && s.waits - {pid} == s.waits;
    hide Inv;
    RemoveInv(s, s', v, pid);
  }

  lemma ExitKeeps(s: Sys, s': Sys, p: Process, status: int)
    requires SysOk(s) && Step(s, s', p, Exit(status))
    ensures SysOk(s')
  {
    ExitReady(s, s', p, status);
    hide Inv, Exited, Step, ExitView, View;
    ExitInv(s, s', View(s.table.slots), View(s'.table.slots), p, s.procs[p], status);
  }

  lemma ExitReady(s: Sys, s': Sys, p: Process, status: int)
    requires SysOk(s) && Step(s, s', p, Exit(status))
    ensures TableOk(s'.table) && |s'.table.slots| == PROCS_MAX && p in s.procs
    ensures Exited(s, s', p, s.procs[p], status)
    ensures var v, v' := View(s.table.slots), View(s'.table.slots);
            ExitView(v, v', s.procs[p], status) && !v[s.procs[p]].exited && s'.owner.Keys == v'.Keys
  {
    hide Count, OwnersOk, HistoryOk, WaitOk, EntryOk;
    var slots, v, cur := s.table.slots, View(s.table.slots), s.procs[p];
    var v' := View(s'.table.slots);
    NotOwnParent(s, v, p);
    assert cur in v && !v[cur].exited && s'.table.slots == AfterExit(slots, cur, status);
    hide View;
    ViewExit(slots, cur, status);
    hide AfterExit;
    forall pid: nat
      ensures pid in s'.owner <==> pid in v'
    {
      assert pid in v' ==> pid in v;
    }
  }

  lemma NotOwnParent(s: Sys, v: map<nat, PidInfo>, p: Process)
    requires Inv(s, v) && p in s.procs
    ensures s.procs[p] in v && s.procs[p] != INVALID_PID && v[s.procs[p]].ppid != s.procs[p]
  {
    hide WaitOk;
    assert EntryOk(s, s.procs[p], v[s.procs[p]], p);
  }

  lemma StartKeeps(s: Sys, s': Sys, p: Process, child: Process)
    requires SysOk(s) && Step(s, s', p, Start(child))
    ensures SysOk(s')
  {
    var v := View(s.table.slots);
    OwnerOf(s, child);
    assert EntryOk(s, s.procs[child], v[s.procs[child]], child);
    hide View, OwnersOk, EntryOk, WaitOk, TableOk;
    QuietInv(s, s', v);
  }

  lemma SleepKeeps(s: Sys, s': Sys, p: Process, pid: nat, flags: int)
    requires SysOk(s) && Step(s, s', p, Sleep(pid, flags))
    ensures SysOk(s')
  {
    hide HistoryOk, Count, EntryOk, OwnersOk;
    var v := View(s.table.slots);
    assert pid in v && v[pid].ppid == s.procs[p] && !v[pid].exited;
    PidNonzero(s, v, p);
    assert WaitOk(s', v, pid, Waiter(p, false));
    hide View, WaitOk, TableOk;
    StartedOld(s);
    QuietInv(s, s', v);
  }

  lemma PidNonzero(s: Sys, v: map<nat, PidInfo>, p: Process)
    requires Inv(s, v) && p in s.procs
    ensures s.procs[p] in v && s.procs[p] != INVALID_PID && !v[s.procs[p]].exited && p !in s.exits
  {
    hide WaitOk, HistoryOk, ParentOk;
    OwnerOf(s, p);
    assert EntryOk(s, s.procs[p], v[s.procs[p]], p);
  }

  lemma StartedOld(s: Sys)
    requires HistoryOk(s)
    ensures forall q: Process | q in s.started :: q < s.unused
  {}

  lemma OwnerOf(s: Sys, p: Process)
    requires OwnersOk(s) && p in s.procs
    ensures s.procs[p] in s.owner && s.owner[s.procs[p]] == p
  {}

  lemma LookKeeps(s: Sys, s': Sys, p: Process, a: Action)
    requires a.Look? && Step(s, s', p, a)
    ensures s' == s
  {}

  // Every step of any process keeps the invariant.
  lemma StepKeeps(s: Sys, s': Sys, p: Process, a: Action)
    requires SysOk(s) && Step(s, s', p, a)
    ensures SysOk(s')
  {
    hide SysOk, Step;
    match a
    case Fork(pid) => ForkKeeps(s, s', p, pid);
    case Disown(pid) => DisownKeeps(s, s', p, pid);
    case Exit(status) => ExitKeeps(s, s', p, status);
    case Unfork(_) => RemoveKeeps(s, s', p, a);
    case Collect(_, _) => RemoveKeeps(s, s', p, a);
    case Resume(_) => RemoveKeeps(s, s', p, a);
    case Start(child) => StartKeeps(s, s', p, child);
    case Sleep(pid, flags) => SleepKeeps(s, s', p, pid, flags);
    case Look(_, _) => assert s' == s by { LookKeeps(s, s', p, a); }
  }

  // The table pid_bootstrap leaves: the kernel process alone.
  ghost predicate Init(s: Sys) {
    && s.table == Table(seq(PROCS_MAX, i => None)[KERNEL_PID := Some(PidInfo(KERNEL_PID, INVALID_PID, false,
      0xbeef))], PID_MIN, 1)
    && s == Sys(s.table, map[0 := KERNEL_PID], {0}, map[KERNEL_PID := 0], map[], map[], map[], map[], 1)
  }

  ghost predicate Run(states: seq<Sys>, acts: seq<(Process, Action)>) {
    && |states| == |acts| + 1 && Init(states[0])
    && forall i | 0 <= i < |acts| :: Step(states[i], states[i + 1], acts[i].0, acts[i].1)
  }

  lemma InitOk(s: Sys)
    requires Init(s)
    ensures SysOk(s)
  {
    var empty: Slots := seq(PROCS_MAX, i => None);
    AllEmpty(empty);
    CountUpdate(empty, KERNEL_PID, s.table.slots[KERNEL_PID]);
    var v := View(s.table.slots);
    assert v.Keys == {KERNEL_PID};
  }

  // The invariant holds at every point of every run.
  lemma {:induction false} RunOk(states: seq<Sys>, acts: seq<(Process, Action)>, n: nat)
    requires Run(states, acts) && n <= |acts|
    ensures SysOk(states[n])
  {
    hide SysOk, Step, Init;
    if n == 0 {
      InitOk(states[0]);
    } else {
      RunOk(states, acts, n - 1);
      StepKeeps(states[n - 1], states[n], acts[n - 1].0, acts[n - 1].1);
    }
  }

  /**
   At every point of every run: an entry's parent pid names the process that forked it, still
   alive, however often pids were reused; and a dead process's entry always has such a parent.
   */
  lemma ParentsAreReal(states: seq<Sys>, acts: seq<(Process, Action)>, n: nat, pid: nat)
    requires Run(states, acts) && n <= |acts|
    ensures |states[n].table.slots| == PROCS_MAX
    ensures var s := states[n];
            var e := Get(s.table.slots, pid);
            e.Some? ==>
              && pid in s.owner && (e.value.exited ==> e.value.ppid != INVALID_PID)
              && (e.value.ppid != INVALID_PID ==>
                    && s.owner[pid] in s.parent && s.parent[s.owner[pid]] in s.procs
                    && s.procs[s.parent[s.owner[pid]]] == e.value.ppid
                    && Get(s.table.slots, e.value.ppid).Some? && !Get(s.table.slots, e.value.ppid).value.exited)
  {
    hide Step, Init, Count, WaitOk, HistoryOk;
    RunOk(states, acts, n);
    var s := states[n];
    var v := View(s.table.slots);
    if pid in v {
      assert EntryOk(s, pid, v[pid], s.owner[pid]);
      if v[pid].ppid != INVALID_PID {
        var p := s.parent[s.owner[pid]];
        OwnerOf(s, p);
        assert EntryOk(s, s.procs[p], v[s.procs[p]], p);
      }
    }
  }

  /**
   The single cv_wait is enough: at every point of every run a sleeping waiter has been woken
   exactly when its child is dead, and then the entry it kept a pointer to is still that
   child's, its assertion holds, and the status there is the one the child exited with.
   */
  lemma ResumeIsSafe(states: seq<Sys>, acts: seq<(Process, Action)>, n: nat, pid: nat)
    requires Run(states, acts) && n <= |acts| && pid in states[n].waits
    ensures |states[n].table.slots| == PROCS_MAX
    ensures var s := states[n];
            var e := Get(s.table.slots, pid);
            && e.Some? && pid in s.owner
            && (s.waits[pid].woken <==> e.value.exited)
            && s.owner[pid] in s.parent && s.parent[s.owner[pid]] == s.waits[pid].who
            && (s.waits[pid].woken ==>
                  s.owner[pid] in s.exits && s.exits[s.owner[pid]] == e.value.status && s.owner[pid] !in s.delivered)
  {
    hide Step, Init, Count, HistoryOk;
    RunOk(states, acts, n);
    var s := states[n];
    var v := View(s.table.slots);
    assert WaitOk(s, v, pid, s.waits[pid]);
    assert EntryOk(s, pid, v[pid], s.owner[pid]);
    OwnerOf(s, s.waits[pid].who);
    OwnerOf(s, s.parent[s.owner[pid]]);
  }

  // c is a child of p that still has pid: forked by p and not let go of.
  ghost predicate ChildOf(s: Sys, p: Process, pid: nat, c: Process)
    requires |s.table.slots| == PROCS_MAX
  {
    && pid in s.owner && s.owner[pid] == c && c in s.parent && s.parent[c] == p
    && Get(s.table.slots, pid).Some? && Get(s.table.slots, pid).value.ppid != INVALID_PID
  }

  /**
   What pid_wait comes to, in every run, told by the processes themselves: it sleeps only for a
   child of the caller that is still running, and only without WNOHANG; it hands over a status at
   once only for a child that is dead; and it fails or reports nothing yet only if pid is no child
   of the caller's, or WNOHANG was given and the child is still running.
   */
  lemma WaitOutcomes(states: seq<Sys>, acts: seq<(Process, Action)>, n: nat)
    requires Run(states, acts) && n < |acts|
    ensures |states[n].table.slots| == PROCS_MAX && acts[n].0 in states[n].procs
    ensures var (p, a) := acts[n]; var s, s' := states[n], states[n + 1];
            && (a.Sleep? ==> a.flags == 0 && s'.waits == s.waits[a.pid := Waiter(p, false)]
                             && exists c: Process :: ChildOf(s, p, a.pid, c) && c in s.procs)
            && (a.Collect? ==> s'.waits == s.waits && exists c: Process :: ChildOf(s, p, a.pid, c) && c in s.exits)
            && (a.Look? ==> s' == s)
            && (a.Look? && Proper(s.procs[p], a.theirpid, a.flags) ==>
                  forall c: Process | ChildOf(s, p, a.theirpid, c) :: a.flags == WNOHANG && c in s.procs)
            && ((a.Sleep? || a.Collect? || a.Look?) && a.flags == WNOHANG ==> s'.waits == s.waits)
  {
    hide Init, Count, HistoryOk;
    RunOk(states, acts, n);
    var (p, a) := acts[n];
    var s := states[n];
    assert Step(s, states[n + 1], p, a);
    var v := View(s.table.slots);
    hide TableOk;
    if a.Sleep? || a.Collect? {
      var c := s.owner[a.pid];
      assert a.pid in v && EntryOk(s, a.pid, v[a.pid], c);
      OwnerOf(s, p);
      OwnerOf(s, s.parent[c]);
      PidNonzero(s, v, p);
      assert ChildOf(s, p, a.pid, c);
    } else if a.Look? && Proper(s.procs[p], a.theirpid, a.flags) {
      forall c: Process | ChildOf(s, p, a.theirpid, c)
        ensures a.flags == WNOHANG && c in s.procs
      {
        assert EntryOk(s, a.theirpid, v[a.theirpid], c);
        OwnerOf(s, p);
      }
    }
  }

  // The process whose status a step hands over.
  predicate Delivers(s: Sys, a: Action, c: Process) {
    (a.Collect? || a.Resume?) && a.pid in s.owner && s.owner[a.pid] == c
  }

  lemma CollectFacts(s: Sys, s': Sys, p: Process, a: Action)
    requires |s.table.slots| == PROCS_MAX && a.Collect? && Step(s, s', p, a)
    ensures var v := View(s.table.slots);
            && a.pid in v && a.pid in s.owner && p in s.procs && v[a.pid].exited && v[a.pid].ppid == s.procs[p]
            && s'.delivered == s.delivered[s.owner[a.pid] := v[a.pid].status]
  {
    hide Put, TableOk;
  }

  lemma ResumeFacts(s: Sys, s': Sys, p: Process, a: Action)
    requires |s.table.slots| == PROCS_MAX && a.Resume? && Step(s, s', p, a)
    requires a.pid in s.waits && WaitOk(s, View(s.table.slots), a.pid, s.waits[a.pid])
    ensures var v := View(s.table.slots);
            && a.pid in v && a.pid in s.owner && p in s.procs && v[a.pid].exited && v[a.pid].ppid == s.procs[p]
            && s'.delivered == s.delivered[s.owner[a.pid] := v[a.pid].status]
  {
    hide Put, TableOk;
  }

  lemma DeliverStep(s: Sys, s': Sys, p: Process, a: Action, c: Process)
    requires SysOk(s) && Step(s, s', p, a) && Delivers(s, a, c)
    ensures c !in s.delivered && c in s.exits && c in s'.delivered && s'.delivered[c] == s.exits[c]
    ensures c in s.parent && s.parent[c] == p
  {
    var v := View(s.table.slots);
    assert a.Resume? ==> a.pid in s.waits;
    hide Step, View, Count, HistoryOk, WaitOk;
    if a.Resume? {
      ResumeFacts(s, s', p, a);
    } else {
      CollectFacts(s, s', p, a);
    }
    assert EntryOk(s, a.pid, v[a.pid], c);
    OwnerOf(s, p);
    OwnerOf(s, s.parent[c]);
  }

  // Only a wait records a delivery.
  lemma DeliveredBy(s: Sys, s': Sys, p: Process, a: Action)
    requires Step(s, s', p, a)
    ensures forall c: Process | c in s.delivered :: c in s'.delivered
  {
    hide Rewritten, Put, Orphan, AfterExit, WaitResult, Get;
  }

  // A run never forgets what has been delivered.
  lemma {:induction false} StillDelivered(states: seq<Sys>, acts: seq<(Process, Action)>, i: nat, j: nat, c: Process)
    requires Run(states, acts) && i <= j <= |acts| && c in states[i].delivered
    ensures c in states[j].delivered
  {
    hide SysOk, Step, Init;
    if i < j {
      StillDelivered(states, acts, i, j - 1, c);
      DeliveredBy(states[j - 1], states[j], acts[j - 1].0, acts[j - 1].1);
    }
  }

  /**
   In every run, a status handed over goes to the process that forked the child, is the one the
   child exited with, and is handed over once: no later step delivers for the same child.
   */
  lemma DeliveredOnce(states: seq<Sys>, acts: seq<(Process, Action)>, i: nat, c: Process)
    requires Run(states, acts) && i < |acts| && Delivers(states[i], acts[i].1, c)
    ensures c in states[i].exits && c in states[i + 1].delivered && states[i + 1].delivered[c] == states[i].exits[c]
    ensures c in states[i].parent && states[i].parent[c] == acts[i].0
    ensures forall j | i < j < |acts| :: !Delivers(states[j], acts[j].1, c)
  {
    hide SysOk, Step, Init, Delivers;
    RunOk(states, acts, i);
    DeliverStep(states[i], states[i + 1], acts[i].0, acts[i].1, c);
    forall j | i < j < |acts|
      ensures !Delivers(states[j], acts[j].1, c)
    {
      RunOk(states, acts, j);
      StillDelivered(states, acts, i + 1, j, c);
      if Delivers(states[j], acts[j].1, c) {
        DeliverStep(states[j], states[j + 1], acts[j].0, acts[j].1, c);
      }
    }
  }
}
