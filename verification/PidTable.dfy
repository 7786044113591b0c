/**
 The process-id table: one entry per slot, indexed by pid modulo the number of
 slots, with wrap-around pid allocation and exit-status bookkeeping.
 */
module PidTable {
  import opened Basics
  import PidSearch

  const PROCS_MAX := 128
  const PID_MIN := 2
  const PID_MAX := 32767
  const KERNEL_PID := 1
  const INVALID_PID := 0

  // struct pidinfo without its condition variable.
  datatype PidInfo = PidInfo(pid: nat, ppid: nat, exited: bool, status: int)

  datatype Error = EAGAIN | ENOMEM | EINVAL | ENOSYS | ESRCH | EPERM

  type Slots = seq<Option<PidInfo>>

  datatype Table = Table(slots: Slots, next: nat, nprocs: nat)

  function Count(s: Slots): (n: nat)
    ensures n <= |s|
  {
    if |s| == 0 then 0 else Count(s[..|s| - 1]) + if s[|s| - 1].Some? then 1 else 0
  }

  predicate ValidPid(pid: nat) {
    pid == KERNEL_PID || PID_MIN <= pid <= PID_MAX
  }

  // Entries sit in their own slot, and the count is right.
  predicate TableOk(t: Table) {
    && |t.slots| == PROCS_MAX && t.nprocs == Count(t.slots) && PID_MIN <= t.next <= PID_MAX
    && forall i | 0 <= i < PROCS_MAX && t.slots[i].Some? ::
          ValidPid(t.slots[i].value.pid) && t.slots[i].value.pid % PROCS_MAX == i
  }

  // pi_get.
  function Get(s: Slots, pid: nat): Option<PidInfo>
    requires |s| == PROCS_MAX
  {
    var e := s[pid % PROCS_MAX];
    if e.Some? && e.value.pid == pid then e else None
  }

  function Put(s: Slots, pid: nat, e: Option<PidInfo>): Slots
    requires |s| == PROCS_MAX
  {
    s[pid % PROCS_MAX := e]
  }

  // ---------------------------------------------------------------- counting

  lemma {:induction false} CountUpdate(s: Slots, i: nat, e: Option<PidInfo>)
    requires i < |s|
    ensures Count(s[i := e]) == Count(s) - (if s[i].Some? then 1 else 0) + (if e.Some? then 1 else 0)
  {
    var n := |s| - 1;
    if i == n {
      assert s[i := e][..n] == s[..n];
    } else {
      assert s[i := e][..n] == s[..n][i := e];
      CountUpdate(s[..n], i, e);
    }
  }

  lemma {:induction false} CountFull(s: Slots)
    ensures Count(s) == |s| <==> forall i | 0 <= i < |s| :: s[i].Some?
  {
    if |s| > 0 {
      var t := s[..|s| - 1];
      CountFull(t);
      assert forall i | 0 <= i < |t| :: s[i] == t[i];
    }
  }

  // ---------------------------------------------------------------- the search for a free slot

  function Inc(next: nat): nat {
    PidSearch.Inc(PID_MIN, PID_MAX, next)
  }

  function Distance(next: nat, r: nat): nat
    requires PID_MIN <= next <= PID_MAX && r < PROCS_MAX
  {
    PidSearch.Distance(PROCS_MAX, PID_MIN, PID_MAX, next, r)
  }

  // Nobody holds the pids passed over: the result is the first in cyclic order whose slot is free.
  ghost predicate FirstFrom(s: Slots, next: nat, pid: nat, n: nat)
    requires |s| == PROCS_MAX
    decreases n
  {
    if n == 0 then pid == next && s[pid % PROCS_MAX].None?
    else s[next % PROCS_MAX].Some? && FirstFrom(s, Inc(next), pid, n - 1)
  }

  class PidTable {
    var slots: array<Option<PidInfo>>
    var nextpid: nat
    var nprocs: nat

    ghost function Abs(): Table
      reads this, slots
    {
      Table(slots[..], nextpid, nprocs)
    }

    ghost predicate Valid()
      reads this, slots
    {
      TableOk(Abs())
    }

    // pid_bootstrap.
    constructor ()
      ensures Valid() && fresh(slots)
      ensures Abs().slots == seq(PROCS_MAX, i => None)[KERNEL_PID := Some(PidInfo(KERNEL_PID, INVALID_PID, false,
              0xbeef))]
    {
      slots := new Option<PidInfo>[PROCS_MAX](i => None);
      nextpid := PID_MIN;
      nprocs := 1;
      new;
      ghost var empty := slots[..];
      slots[KERNEL_PID] := Some(PidInfo(KERNEL_PID, INVALID_PID, false, 0xbeef));
      AllEmpty(empty);
      assert slots[..] == empty[KERNEL_PID := slots[KERNEL_PID]];
      CountUpdate(empty, KERNEL_PID, slots[KERNEL_PID]);
    }

    /**
     The loop of pid_alloc: with a slot free, it stops at the first pid in cyclic order whose
     slot is empty, and its assertion on the number of turns never fires.
     */
    method FindFree() returns (ghost turns: nat)
      requires Valid() && nprocs < PROCS_MAX
      modifies this`nextpid
      ensures Valid() && slots[nextpid % PROCS_MAX].None?
      ensures FirstFrom(slots[..], old(nextpid), nextpid, turns) && turns < 2 * PROCS_MAX
    {
      ghost var r := FreeSlot(slots[..]);
      var count := 0;
      PidSearch.DistanceBound(PROCS_MAX, PID_MIN, PID_MAX, nextpid, r);
      ghost var far := Distance(nextpid, r);
      ghost var path := [nextpid];
      while slots[nextpid % PROCS_MAX] != None
        invariant Valid()
        invariant count + Distance(nextpid, r) == far
        invariant |path| == count + 1 && path[0] == old(nextpid) && path[count] == nextpid
        invariant forall i | 0 <= i < count :: path[i + 1] == Inc(path[i]) && slots[path[i] % PROCS_MAX].Some?
        decreases Distance(nextpid, r)
      {
        PidSearch.DistanceStep(PROCS_MAX, PID_MIN, PID_MAX, nextpid, r);
        assert count < PROCS_MAX * 2 + 5;
        count := count + 1;
        nextpid := Inc(nextpid);
        path := path + [nextpid];
      }
      turns := count;
      PathIsFirst(slots[..], path, 0);
    }

    /**
     pid_alloc: EAGAIN exactly when every slot is taken, ENOMEM when no entry could be made;
     otherwise a pid in range that no entry has, entered as a child of the caller.
     */
    method PidAlloc(cur: nat, memory: bool) returns (r: Option<Error>, pid: nat)
      requires Valid()
      modifies this, slots
      ensures Valid() && slots == old(slots)
      ensures r == Some(EAGAIN) <==> old(nprocs) == PROCS_MAX
      ensures r == Some(ENOMEM) <==> old(nprocs) < PROCS_MAX && !memory
      ensures r.Some? ==> slots[..] == old(slots[..]) && (r == Some(EAGAIN) || r == Some(ENOMEM))
      ensures r.None? ==> PID_MIN <= pid <= PID_MAX && old(slots[..])[pid % PROCS_MAX].None? && nextpid == Inc(pid)
      ensures r.None? ==> slots[..] == Put(old(slots[..]), pid, Some(PidInfo(pid, cur, false, 0xbeef)))
    {
      if nprocs == PROCS_MAX {
        return Some(EAGAIN), 0;
      }
      CountFull(slots[..]);
      ghost var turns := FindFree();
      pid := nextpid;
      if !memory {
        return Some(ENOMEM), 0;
      }
      ghost var was := slots[..];
      slots[pid % PROCS_MAX] := Some(PidInfo(pid, cur, false, 0xbeef));
      assert slots[..] == was[pid % PROCS_MAX := slots[pid % PROCS_MAX]];
      CountUpdate(was, pid % PROCS_MAX, slots[pid % PROCS_MAX]);
      nprocs := nprocs + 1;
      nextpid := Inc(nextpid);
      r := None;
    }

    // pi_drop, together with the last look at the entry that its callers take.
    method Drop(pid: nat)
      requires Valid() && Get(slots[..], pid).Some?
      requires Get(slots[..], pid).value.exited && Get(slots[..], pid).value.ppid == INVALID_PID
      modifies this`nprocs, slots
      ensures Valid() && slots[..] == Put(old(slots[..]), pid, None)
    {
      ghost var was := slots[..];
      slots[pid % PROCS_MAX] := None;
      assert slots[..] == was[pid % PROCS_MAX := None];
      CountUpdate(was, pid % PROCS_MAX, None);
      nprocs := nprocs - 1;
    }

    method Store(pid: nat, e: PidInfo)
      requires Valid() && Get(slots[..], pid).Some? && e.pid == pid
      modifies slots
      ensures Valid() && slots[..] == Put(old(slots[..]), pid, Some(e))
    {
      ghost var was := slots[..];
      slots[pid % PROCS_MAX] := Some(e);
      assert slots[..] == was[pid % PROCS_MAX := Some(e)];
      CountUpdate(was, pid % PROCS_MAX, Some(e));
    }

    // pid_unalloc of a pid that has not run yet.
    method PidUnalloc(cur: nat, pid: nat)
      requires Valid() && Get(slots[..], pid).Some? && !Get(slots[..], pid).value.exited
               && Get(slots[..], pid).value.ppid == cur
      modifies this`nprocs, slots
      ensures Valid() && slots[..] == Put(old(slots[..]), pid, None)
    {
      Store(pid, PidInfo(pid, INVALID_PID, true, 0xdead));
      Drop(pid);
    }

    // pid_disown: the entry loses its parent, and goes away at once if the child is already dead.
    method PidDisown(cur: nat, pid: nat)
      requires Valid() && Get(slots[..], pid).Some? && Get(slots[..], pid).value.ppid == cur
      modifies this`nprocs, slots
      ensures Valid() && slots[..] == Put(old(slots[..]), pid, Orphan(Get(old(slots[..]), pid).value))
    {
      var e := slots[pid % PROCS_MAX].value;
      Store(pid, e.(ppid := INVALID_PID));
      if e.exited {
        Drop(pid);
      }
    }

    /**
     pid_setexitstatus: all the caller's children are disowned, then its own entry records the
     status, or goes away if nobody will ask for it.
     */
    method SetExitStatus(cur: nat, status: int)
      requires Valid() && cur != INVALID_PID && Get(slots[..], cur).Some? && !Get(slots[..], cur).value.exited
      modifies this`nprocs, slots
      ensures Valid() && slots[..] == AfterExit(old(slots[..]), cur, status)
    {
      ghost var was := slots[..];
      var i := 0;
      while i < PROCS_MAX
        invariant 0 <= i <= PROCS_MAX && Valid()
        invariant forall k | 0 <= k < PROCS_MAX :: slots[k] == if k < i then Disowned(was[k], cur) else was[k]
      {
        if slots[i].Some? && slots[i].value.ppid == cur {
          var e := slots[i].value;
          assert Get(slots[..], e.pid) == Some(e);
          Store(e.pid, e.(ppid := INVALID_PID));
          if e.exited {
            Drop(e.pid);
          }
        }
        i := i + 1;
      }
      assert slots[..] == DisownAll(was, cur);
      var us := slots[cur % PROCS_MAX].value;
      Store(cur, us.(exited := true, status := status));
      if us.ppid == INVALID_PID {
        Drop(cur);
      }
    }

    /**
     pid_wait up to the point where it may sleep. Only a parent learns anything about a pid;
     a dead child's status is handed over together with its entry.
     */
    method Wait(cur: nat, pid: int, flags: int) returns (r: WaitOutcome)
      requires Valid() && cur != INVALID_PID
      modifies this`nprocs, slots
      ensures Valid() && r == WaitResult(old(slots[..]), cur, pid, flags)
      ensures Answers(old(slots[..]), cur, pid, flags, r)
      ensures slots[..] == if r.Status? then Put(old(slots[..]), pid, None) else old(slots[..])
    {
      WaitAnswers(Abs(), cur, pid, flags);
      hide Answers;
      if pid == cur {
        return Failed(EINVAL);
      }
      if pid == INVALID_PID || pid < 0 {
        return Failed(ENOSYS);
      }
      if flags != 0 && flags != WNOHANG {
        return Failed(EINVAL);
      }
      var them := slots[pid % PROCS_MAX];
      if them.None? || them.value.pid != pid {
        return Failed(ESRCH);
      }
      if them.value.ppid != cur {
        return Failed(EPERM);
      }
      if !them.value.exited {
        return if flags == WNOHANG then NotYet else Sleeps;
      }
      var status := Collect(pid);
      r := Status(status);
    }

    // The end of pid_wait, run at once or after cv_wait: the status, and the entry goes away.
    method Collect(pid: nat) returns (status: int)
      requires Valid() && Get(slots[..], pid).Some? && Get(slots[..], pid).value.exited
      modifies this`nprocs, slots
      ensures Valid() && slots[..] == Put(old(slots[..]), pid, None)
      ensures status == Get(old(slots[..]), pid).value.status
    {
      var e := slots[pid % PROCS_MAX].value;
      status := e.status;
      Store(pid, e.(ppid := INVALID_PID));
      Drop(pid);
    }
  }

  function WaitResult(s: Slots, cur: nat, pid: int, flags: int): WaitOutcome
    requires |s| == PROCS_MAX
  {
    if pid == cur then Failed(EINVAL)
    else if pid <= 0 then Failed(ENOSYS)
    else if flags != 0 && flags != WNOHANG then Failed(EINVAL)
    else match Get(s, pid)
      case None => Failed(ESRCH)
      case Some(e) =>
        if e.ppid != cur then Failed(EPERM)
        else if e.exited then Status(e.status)
        else if flags == WNOHANG then NotYet
        else Sleeps
  }

  // Some slot holds the entry e.
  predicate Holds(s: Slots, e: PidInfo) {
    Some(e) in s
  }

  // A call that asks about another process with flags pid_wait knows.
  predicate Proper(cur: nat, pid: int, flags: int) {
    pid > 0 && pid != cur && (flags == 0 || flags == WNOHANG)
  }

  /**
   What pid_wait answers, from the entries of the table: which arguments it refuses; that nobody
   but the parent learns anything about a pid; and what the parent is told, at once or after
   sleeping.
   */
  ghost predicate Answers(s: Slots, cur: nat, pid: int, flags: int, r: WaitOutcome) {
    && (r == Failed(EINVAL) <==> pid == cur || (pid > 0 && flags != 0 && flags != WNOHANG))
    && (r == Failed(ENOSYS) <==> pid != cur && pid <= 0)
    && (r == Failed(ESRCH) <==> Proper(cur, pid, flags) && forall e: PidInfo | Holds(s, e) :: e.pid != pid)
    && (r == Failed(EPERM) <==>
          Proper(cur, pid, flags) && exists e: PidInfo :: Holds(s, e) && e.pid == pid && e.ppid != cur)
    && (forall x: int :: r == Status(x) <==>
          Proper(cur, pid, flags)
          && exists e: PidInfo :: Holds(s, e) && e.pid == pid && e.ppid == cur && e.exited && e.status == x)
    && (r.NotYet? <==>
          Proper(cur, pid, flags) && flags == WNOHANG
          && exists e: PidInfo :: Holds(s, e) && e.pid == pid && e.ppid == cur && !e.exited)
    && (r.Sleeps? <==>
          Proper(cur, pid, flags) && flags == 0
          && exists e: PidInfo :: Holds(s, e) && e.pid == pid && e.ppid == cur && !e.exited)
  }

  // In a good table a pid has at most one entry, which pi_get finds.
  lemma OneEntry(t: Table, pid: nat)
    requires TableOk(t)
    ensures forall e: PidInfo :: Holds(t.slots, e) && e.pid == pid <==> Get(t.slots, pid) == Some(e)
  {
    forall e: PidInfo | Holds(t.slots, e) && e.pid == pid
      ensures Get(t.slots, pid) == Some(e)
    {
      var i :| 0 <= i < |t.slots| && t.slots[i] == Some(e);
    }
  }

  lemma WaitAnswers(t: Table, cur: nat, pid: int, flags: int)
    requires TableOk(t)
    ensures Answers(t.slots, cur, pid, flags, WaitResult(t.slots, cur, pid, flags))
  {
    if pid > 0 {
      OneEntry(t, pid);
      hide Holds, TableOk;
      var found := Get(t.slots, pid);
      assert found.Some? ==> Holds(t.slots, found.value) && found.value.pid == pid;
    }
  }

  /**
   What an exit does to the table, pid by pid: the caller's dead children go, its living ones become
   orphans, its own entry takes the status, or goes if it has no parent, and every other entry stays
   as it is.
   */
  lemma ExitMeans(t: Table, cur: nat, status: int, q: nat)
    requires TableOk(t) && cur != INVALID_PID && Get(t.slots, cur).Some? && !Get(t.slots, cur).value.exited
    requires Get(t.slots, cur).value.ppid != cur
    ensures var before, after := Get(t.slots, q), Get(AfterExit(t.slots, cur, status), q);
            && (before.None? ==> after.None?)
            && (q == cur ==> (after.None? <==> before.value.ppid == INVALID_PID)
                             && (after.Some? ==> after.value.exited && after.value.status == status
                                                 && after.value.pid == cur && after.value.ppid == before.value.ppid))
            && (q != cur && before.Some? && before.value.ppid == cur ==>
                  (after.None? <==> before.value.exited)
                  && (after.Some? ==> after.value == before.value.(ppid := INVALID_PID)))
            && (q != cur && before.Some? && before.value.ppid != cur ==> after == before)
  {
    var d := DisownAll(t.slots, cur);
    assert d[q % PROCS_MAX] == Disowned(t.slots[q % PROCS_MAX], cur);
    assert d[cur % PROCS_MAX] == Disowned(t.slots[cur % PROCS_MAX], cur) == t.slots[cur % PROCS_MAX];
    if q % PROCS_MAX != cur % PROCS_MAX {
      assert AfterExit(t.slots, cur, status)[q % PROCS_MAX] == d[q % PROCS_MAX];
    }
  }

  const WNOHANG := 1

  // How pid_wait ends before, or without, sleeping.
  datatype WaitOutcome = Failed(e: Error) | NotYet | Sleeps | Status(status: int)

  // What becomes of an entry whose parent lets go of it.
  function Orphan(e: PidInfo): Option<PidInfo> {
    if e.exited then None else Some(e.(ppid := INVALID_PID))
  }

  function Disowned(e: Option<PidInfo>, parent: nat): Option<PidInfo> {
    if e.Some? && e.value.ppid == parent then Orphan(e.value) else e
  }

  function DisownAll(s: Slots, parent: nat): (r: Slots)
    ensures |r| == |s| && forall i | 0 <= i < |s| :: r[i] == Disowned(s[i], parent)
  {
    seq(|s|, i requires 0 <= i < |s| => Disowned(s[i], parent))
  }

  function AfterExit(s: Slots, cur: nat, status: int): Slots
    requires |s| == PROCS_MAX && Get(s, cur).Some? && !Get(s, cur).value.exited
  {
    var us := Get(DisownAll(s, cur), cur).value;
    Put(DisownAll(s, cur), cur, if us.ppid == INVALID_PID then None else Some(us.(exited := true, status := status)))
  }

  lemma FreeSlot(s: Slots) returns (r: nat)
    requires |s| == PROCS_MAX && Count(s) < PROCS_MAX
    ensures r < PROCS_MAX && s[r].None?
  {
    CountFull(s);
    r :| r < PROCS_MAX && s[r].None?;
  }

  lemma {:induction false} AllEmpty(s: Slots)
    requires forall i | 0 <= i < |s| :: s[i].None?
    ensures Count(s) == 0
  {
    if |s| > 0 {
      AllEmpty(s[..|s| - 1]);
    }
  }

  lemma {:induction false} PathIsFirst(s: Slots, path: seq<nat>, i: nat)
    requires |s| == PROCS_MAX && i < |path| && s[path[|path| - 1] % PROCS_MAX].None?
    requires forall k | 0 <= k < |path| - 1 :: path[k + 1] == Inc(path[k]) && s[path[k] % PROCS_MAX].Some?
    ensures FirstFrom(s, path[i], path[|path| - 1], |path| - 1 - i)
    decreases |path| - i
  {
    if i < |path| - 1 {
      PathIsFirst(s, path, i + 1);
    }
  }
}
