/**
 Open files shared between the file tables of any number of processes: reference
 counts against the references there are, over every run of open, close, dup2,
 fork and exit.
 */
module OpenFiles {
  const OPEN_MAX := 128

  type Process = nat
  type File = nat

  // A place that names an open file: a table slot, or a local variable of a system call.
  datatype Ref = Slot(p: Process, fd: nat) | Hand(p: Process, k: nat)

  /**
   refcount: the openfile objects that exist. refs: every reference there is. closing: objects
   being torn down, their vnode still to be closed. closes: how often each vnode ever opened has
   been closed.
   */
  datatype Sys = Sys(refcount: map<File, nat>, refs: map<Ref, File>, closing: set<File>, closes: map<File, nat>)

  function Holders(refs: map<Ref, File>, f: File): set<Ref> {
    set r | r in refs && refs[r] == f
  }

  ghost predicate FileOk(s: Sys, f: File) {
    && (f in s.refcount ==>
          && s.refcount[f] == |Holders(s.refs, f)| && s.refcount[f] > 0
          && f in s.closes && s.closes[f] == 0 && f !in s.closing)
    && (f in s.closing ==> f in s.closes && s.closes[f] == 0)
    && (f in s.closes && f !in s.refcount && f !in s.closing ==> s.closes[f] == 1)
  }

  ghost predicate SysOk(s: Sys) {
    && (forall r: Ref | r in s.refs :: s.refs[r] in s.refcount)
    && (forall f: File :: FileOk(s, f))
  }

  // ---------------------------------------------------------------- steps

  datatype Action =
    | Open(p: Process, k: nat, f: File)
    | Place(p: Process, k: nat, fd: nat)
    | PlaceAt(p: Process, k: nat, fd: nat, j: nat)
    | TakeOut(p: Process, fd: nat, k: nat)
    | Duplicate(p: Process, fd: nat, k: nat)
    | Share(p: Process, q: Process, fd: nat)
    | Drop(p: Process, k: nat)
    | CloseVnode(f: File)

  // A reference moves from r to r'; nothing is counted.
  function MoveRef(s: Sys, r: Ref, r': Ref): Sys
    requires r in s.refs
  {
    s.(refs := (s.refs - {r})[r' := s.refs[r]])
  }

  // openfile_incref by someone who has a reference r, for a new reference r'.
  function AddRef(s: Sys, r: Ref, r': Ref): Sys
    requires r in s.refs && s.refs[r] in s.refcount
  {
    var f := s.refs[r];
    s.(refcount := s.refcount[f := s.refcount[f] + 1], refs := s.refs[r' := f])
  }

  // openfile_decref on the reference r: the last one tears the object down.
  function DropRef(s: Sys, r: Ref): Sys
    requires r in s.refs && s.refs[r] in s.refcount && s.refcount[s.refs[r]] > 0
  {
    var f := s.refs[r];
    if s.refcount[f] == 1 then s.(refcount := s.refcount - {f}, refs := s.refs - {r}, closing := s.closing + {f})
    else s.(refcount := s.refcount[f := s.refcount[f] - 1], refs := s.refs - {r})
  }

  ghost predicate Step(s: Sys, s': Sys, a: Action) {
    match a
    case Open(p, k, f) =>
      && Hand(p, k) !in s.refs && f !in s.closes
      && s' == s.(refcount := s.refcount[f := 1], refs := s.refs[Hand(p, k) := f], closes := s.closes[f := 0])
    case Place(p, k, fd) =>
      && Hand(p, k) in s.refs && fd < OPEN_MAX && Slot(p, fd) !in s.refs
        && (forall e: nat | e < fd :: Slot(p, e) in s.refs)
      && s' == MoveRef(s, Hand(p, k), Slot(p, fd))
    case PlaceAt(p, k, fd, j) =>
      && Hand(p, k) in s.refs && fd < OPEN_MAX && k != j && Hand(p, j) !in s.refs
      && s' == if Slot(p, fd) in s.refs then MoveRef(MoveRef(s, Slot(p, fd), Hand(p, j)), Hand(p, k), Slot(p, fd))
               else MoveRef(s, Hand(p, k), Slot(p, fd))
    case TakeOut(p, fd, k) =>
      Slot(p, fd) in s.refs && Hand(p, k) !in s.refs && s' == MoveRef(s, Slot(p, fd), Hand(p, k))
    case Duplicate(p, fd, k) =>
      && Slot(p, fd) in s.refs && s.refs[Slot(p, fd)] in s.refcount && Hand(p, k) !in s.refs
      && s' == AddRef(s, Slot(p, fd), Hand(p, k))
    case Share(p, q, fd) =>
      && Slot(p, fd) in s.refs && s.refs[Slot(p, fd)] in s.refcount && Slot(q, fd) !in s.refs
      && s' == AddRef(s, Slot(p, fd), Slot(q, fd))
    case Drop(p, k) =>
      && Hand(p, k) in s.refs && s.refs[Hand(p, k)] in s.refcount && s.refcount[s.refs[Hand(p, k)]] > 0
      && s' == DropRef(s, Hand(p, k))
    case CloseVnode(f) =>
      && f in s.closing && f in s.closes
      && s' == s.(closing := s.closing - {f}, closes := s.closes[f := s.closes[f] + 1])
  }

  // ---------------------------------------------------------------- each step keeps the invariant

  lemma MoveKeeps(s: Sys, r: Ref, r': Ref)
    requires SysOk(s) && r in s.refs && r' !in s.refs
    ensures SysOk(MoveRef(s, r, r'))
  {
    var s' := MoveRef(s, r, r');
    forall f: File
      ensures FileOk(s', f)
    {
      assert FileOk(s, f);
      if s.refs[r] == f {
        assert Holders(s'.refs, f) == Holders(s.refs, f) - {r} + {r'};
        assert r in Holders(s.refs, f) && r' !in Holders(s.refs, f) - {r};
      } else {
        assert Holders(s'.refs, f) == Holders(s.refs, f);
      }
    }
  }

  lemma AddKeeps(s: Sys, r: Ref, r': Ref)
    requires SysOk(s) && r in s.refs && r' !in s.refs
    ensures SysOk(AddRef(s, r, r'))
  {
    var s' := AddRef(s, r, r');
    forall f: File
      ensures FileOk(s', f)
    {
      assert FileOk(s, f);
      if s.refs[r] == f {
        assert Holders(s'.refs, f) == Holders(s.refs, f) + {r'} && r' !in Holders(s.refs, f);
      } else {
        assert Holders(s'.refs, f) == Holders(s.refs, f);
      }
    }
  }

  // The count reaches one exactly when the reference being dropped is the only one there is.
  lemma LastReference(s: Sys, r: Ref)
    requires SysOk(s) && r in s.refs
    ensures s.refs[r] in s.refcount && s.refcount[s.refs[r]] > 0
    ensures s.refcount[s.refs[r]] == 1 <==> Holders(s.refs, s.refs[r]) == {r}
  {
    var f := s.refs[r];
    assert FileOk(s, f);
    assert r in Holders(s.refs, f);
    if s.refcount[f] == 1 {
      assert |Holders(s.refs, f) - {r}| == 0;
    }
  }

  lemma DropKeeps(s: Sys, r: Ref)
    requires SysOk(s) && r in s.refs
    ensures s.refs[r] in s.refcount && s.refcount[s.refs[r]] > 0 && SysOk(DropRef(s, r))
  {
    LastReference(s, r);
    var s', g := DropRef(s, r), s.refs[r];
    forall f: File
      ensures FileOk(s', f)
    {
      assert FileOk(s, f);
      if f == g {
        assert Holders(s'.refs, f) == Holders(s.refs, f) - {r} && r in Holders(s.refs, f);
      } else {
        assert Holders(s'.refs, f) == Holders(s.refs, f);
      }
    }
    forall q: Ref | q in s'.refs
      ensures s'.refs[q] in s'.refcount
    {
      assert q in s.refs;
      assert s.refs[q] == g ==> q in Holders(s.refs, g);
    }
  }

  lemma OpenKeeps(s: Sys, s': Sys, r: Ref, g: File)
    requires SysOk(s) && r !in s.refs && g !in s.closes
    requires s' == s.(refcount := s.refcount[g := 1], refs := s.refs[r := g], closes := s.closes[g := 0])
    ensures SysOk(s')
  {
    assert FileOk(s, g);
    forall f: File
      ensures FileOk(s', f)
    {
      assert FileOk(s, f);
      if f == g {
        assert forall q: Ref | q in s.refs :: s.refs[q] != g;
        assert Holders(s'.refs, f) == {r};
      } else {
        assert Holders(s'.refs, f) == Holders(s.refs, f);
      }
    }
  }

  lemma CloseKeeps(s: Sys, s': Sys, g: File)
    requires SysOk(s) && g in s.closing && g in s.closes
    requires s' == s.(closing := s.closing - {g}, closes := s.closes[g := s.closes[g] + 1])
    ensures SysOk(s')
  {
    assert FileOk(s, g);
    forall f: File
      ensures FileOk(s', f)
    {
      assert FileOk(s, f);
    }
  }

  lemma StepKeeps(s: Sys, s': Sys, a: Action)
    requires SysOk(s) && Step(s, s', a)
    ensures SysOk(s')
  {
    hide SysOk, MoveRef, AddRef, DropRef;
    match a
    case Open(p, k, f) => OpenKeeps(s, s', Hand(p, k), f);
    case Place(p, k, fd) => MoveKeeps(s, Hand(p, k), Slot(p, fd));
    case PlaceAt(p, k, fd, j) => PlaceAtKeeps(s, s', p, k, fd, j);
    case TakeOut(p, fd, k) => MoveKeeps(s, Slot(p, fd), Hand(p, k));
    case Duplicate(p, fd, k) => AddKeeps(s, Slot(p, fd), Hand(p, k));
    case Share(p, q, fd) => AddKeeps(s, Slot(p, fd), Slot(q, fd));
    case Drop(p, k) => DropKeeps(s, Hand(p, k));
    case CloseVnode(f) => CloseKeeps(s, s', f);
  }

  lemma PlaceAtKeeps(s: Sys, s': Sys, p: Process, k: nat, fd: nat, j: nat)
    requires SysOk(s) && Step(s, s', PlaceAt(p, k, fd, j))
    ensures SysOk(s')
  {
    hide SysOk;
    if Slot(p, fd) in s.refs {
      MoveKeeps(s, Slot(p, fd), Hand(p, j));
      MoveKeeps(MoveRef(s, Slot(p, fd), Hand(p, j)), Hand(p, k), Slot(p, fd));
    } else {
      MoveKeeps(s, Hand(p, k), Slot(p, fd));
    }
  }

  // ---------------------------------------------------------------- runs

  ghost predicate Run(states: seq<Sys>, acts: seq<Action>) {
    && |states| == |acts| + 1 && states[0] == Sys(map[], map[], {}, map[])
    && forall i | 0 <= i < |acts| :: Step(states[i], states[i + 1], acts[i])
  }

  lemma {:induction false} RunOk(states: seq<Sys>, acts: seq<Action>, n: nat)
    requires Run(states, acts) && n <= |acts|
    ensures SysOk(states[n])
  {
    if n > 0 {
      hide SysOk, Step;
      RunOk(states, acts, n - 1);
      StepKeeps(states[n - 1], states[n], acts[n - 1]);
    }
  }

  /**
   At every point of every run each open file's count is the number of slots and in-flight
   references naming it, and every reference names an object that still exists.
   */
  lemma CountsAreReferences(states: seq<Sys>, acts: seq<Action>, n: nat, f: File, r: Ref)
    requires Run(states, acts) && n <= |acts|
    ensures f in states[n].refcount ==>
              states[n].refcount[f] == |Holders(states[n].refs, f)| && states[n].refcount[f] > 0
    ensures r in states[n].refs ==> states[n].refs[r] in states[n].refcount
  {
    hide Step;
    RunOk(states, acts, n);
    assert FileOk(states[n], f);
  }

  /**
   At every point of every run a vnode has been closed at most once, and not before the last
   reference to its open file was gone; once the object is torn down it has been closed.
   */
  lemma ClosedOnce(states: seq<Sys>, acts: seq<Action>, n: nat, f: File)
    requires Run(states, acts) && n <= |acts| && f in states[n].closes
    ensures states[n].closes[f] <= 1
    ensures states[n].closes[f] == 1 <==> f !in states[n].closing && Holders(states[n].refs, f) == {}
  {
    hide Step;
    RunOk(states, acts, n);
    var s := states[n];
    assert FileOk(s, f);
    if Holders(s.refs, f) != {} {
      var r :| r in Holders(s.refs, f);
      assert s.refs[r] in s.refcount;
    }
  }

  // ---------------------------------------------------------------- what a descriptor stands for

  predicate Names(s: Sys, r: Ref, f: File) {
    r in s.refs && s.refs[r] == f
  }

  /**
   Over every run: a descriptor stands for the same open file from when it is given out until its
   own process takes it out of the table or puts another file over it, whatever others do.
   */
  lemma {:induction false} DescriptorStays(states: seq<Sys>, acts: seq<Action>, p: Process, fd: nat, f: File, i: nat,
        n: nat)
    requires Run(states, acts) && i <= n <= |acts| && Names(states[i], Slot(p, fd), f)
    requires forall j | i <= j < n ::
               !(acts[j].TakeOut? && acts[j].p == p && acts[j].fd == fd)
               && !(acts[j].PlaceAt? && acts[j].p == p && acts[j].fd == fd)
    ensures Names(states[n], Slot(p, fd), f)
  {
    if i < n {
      DescriptorStays(states, acts, p, fd, f, i, n - 1);
      assert Step(states[n - 1], states[n], acts[n - 1]);
    }
  }

  /**
   Over every run: a reference that comes to name a file gets it from another: a descriptor from
   the system call that was handed the file, the lowest free one unless dup2 chose it, or from the
   parent's descriptor of the same number; a system call from opening it, from the descriptor it
   duplicates or closes, or from the one dup2 puts another file over.
   */
  lemma ReferenceFrom(states: seq<Sys>, acts: seq<Action>, n: nat, r: Ref, f: File)
    requires Run(states, acts) && n < |acts| && !Names(states[n], r, f) && Names(states[n + 1], r, f)
    ensures var s := states[n];
            match acts[n]
            case Open(p, k, g) => r == Hand(p, k) && f == g && forall q: Ref :: !Names(s, q, f)
            case Place(p, k, fd) =>
              r == Slot(p, fd) && Names(s, Hand(p, k), f) && fd < OPEN_MAX && r !in s.refs
              && forall e: nat | e < fd :: Slot(p, e) in s.refs
            case PlaceAt(p, k, fd, j) =>
              (r == Slot(p, fd) && Names(s, Hand(p, k), f)) || (r == Hand(p, j) && Names(s, Slot(p, fd), f))
            case TakeOut(p, fd, k) => r == Hand(p, k) && Names(s, Slot(p, fd), f)
            case Duplicate(p, fd, k) => r == Hand(p, k) && Names(s, Slot(p, fd), f)
            case Share(p, q, fd) => r == Slot(q, fd) && Names(s, Slot(p, fd), f)
            case _ => false
  {
    hide SysOk;
    RunOk(states, acts, n);
    assert Step(states[n], states[n + 1], acts[n]);
    if acts[n].Open? {
      NeverOpened(states[n], f);
    }
  }

  lemma NeverOpened(s: Sys, f: File)
    requires SysOk(s) && f !in s.closes
    ensures forall q: Ref :: !Names(s, q, f)
  {
    assert FileOk(s, f);
  }
}
