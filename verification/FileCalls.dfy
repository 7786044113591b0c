/**
 The file system calls that change file tables, run to completion by one process:
 what each does to the tables, and that none leaves a reference behind.
 */
module FileCalls {
  import opened OpenFiles

  datatype Errno = EBADF | EMFILE
  datatype Result<+T> = Ok(value: T) | Err(e: Errno)

  // The file a descriptor of p stands for, if it is open.
  predicate IsOpen(s: Sys, p: Process, fd: int) {
    0 <= fd < OPEN_MAX && Slot(p, fd) in s.refs
  }

  // Two tables agree everywhere but possibly at fd.
  ghost predicate SameTablesBut(s: Sys, s': Sys, p: Process, fd: int) {
    forall q: Process, e: nat | q != p || e != fd ::
      (Slot(q, e) in s'.refs <==> Slot(q, e) in s.refs) && (Slot(q, e) in s.refs
        ==> s'.refs[Slot(q, e)] == s.refs[Slot(q, e)])
  }

  // No system call is under way: every reference is a table slot.
  ghost predicate Quiet(s: Sys) {
    SysOk(s) && s.closing == {} && forall r: Ref | r in s.refs :: r.Slot?
  }

  class Kernel {
    var sys: Sys

    // openfile_decref, with the vfs_close that follows the last one.
    method Decref(p: Process, k: nat)
      requires SysOk(sys) && sys.closing == {} && Hand(p, k) in sys.refs
      modifies this
      ensures SysOk(sys) && sys.closing == {} && sys.refs == old(sys).refs - {Hand(p, k)}
    {
      hide SysOk;
      DropKeeps(sys, Hand(p, k));
      var f := sys.refs[Hand(p, k)];
      sys := DropRef(sys, Hand(p, k));
      if f in sys.closing {
        assert f in sys.closes by {
          ClosingKnown(sys, f);
        }
        ghost var before := sys;
        sys := sys.(closing := sys.closing - {f}, closes := sys.closes[f := sys.closes[f] + 1]);
        CloseKeeps(before, sys, f);
      }
    }

    /**
     filetable_place: the lowest free descriptor, or EMFILE exactly when the table is full, in
     which case the caller keeps its reference.
     */
    method Place(p: Process, k: nat) returns (r: Result<nat>)
      requires SysOk(sys) && Hand(p, k) in sys.refs
      modifies this
      ensures SysOk(sys) && sys.closing == old(sys).closing
      ensures r.Err? <==> forall e: nat | e < OPEN_MAX :: IsOpen(old(sys), p, e)
      ensures r.Err? ==> sys == old(sys) && r.e == EMFILE
      ensures r.Ok? ==>
                r.value < OPEN_MAX && !IsOpen(old(sys), p, r.value)
                && (forall e: nat | e < r.value :: IsOpen(old(sys), p, e))
      ensures r.Ok? ==> sys == MoveRef(old(sys), Hand(p, k), Slot(p, r.value))
    {
      hide SysOk, MoveRef;
      var fd := 0;
      while fd < OPEN_MAX
        invariant 0 <= fd <= OPEN_MAX && sys == old(sys)
        invariant forall e: nat | e < fd :: IsOpen(sys, p, e)
      {
        if Slot(p, fd) !in sys.refs {
          assert !IsOpen(old(sys), p, fd);
          MoveKeeps(sys, Hand(p, k), Slot(p, fd));
          sys := MoveRef(sys, Hand(p, k), Slot(p, fd));
          MoveRest(old(sys), Hand(p, k), Slot(p, fd));
          return Ok(fd);
        }
        fd := fd + 1;
      }
      return Err(EMFILE);
    }

    /**
     The end of sys_open, once the file f has been opened: it gets the lowest free descriptor, or
     is closed again when there is none.
     */
    method SysOpen(p: Process, f: File) returns (r: Result<nat>)
      requires Quiet(sys) && f !in sys.closes
      modifies this
      ensures Quiet(sys)
      ensures r.Err? <==> forall e: nat | e < OPEN_MAX :: IsOpen(old(sys), p, e)
      ensures r.Err? ==> sys.refs == old(sys).refs
      ensures r.Ok? ==> !IsOpen(old(sys), p, r.value) && (forall e: nat | e < r.value :: IsOpen(old(sys), p, e))
      ensures r.Ok? ==>
                IsOpen(sys, p, r.value) && sys.refs[Slot(p, r.value)] == f && SameTablesBut(old(sys), sys, p, r.value)
    {
      ghost var before := sys;
      var h := Hand(p, 0);
      sys := sys.(refcount := sys.refcount[f := 1], refs := sys.refs[h := f], closes := sys.closes[f := 0]);
      OpenKeeps(before, sys, h, f);
      hide SysOk;
      assert forall e: nat :: IsOpen(sys, p, e) == IsOpen(before, p, e);
      r := Place(p, 0);
      if r.Err? {
        Decref(p, 0);
        assert sys.refs == before.refs;
      }
    }

    // sys_close: EBADF exactly when the descriptor is not open; otherwise its slot is empty.
    method SysClose(p: Process, fd: int) returns (r: Result<()>)
      requires Quiet(sys)
      modifies this
      ensures Quiet(sys)
      ensures r == (if IsOpen(old(sys), p, fd) then Ok(()) else Err(EBADF))
      ensures !IsOpen(sys, p, fd) && SameTablesBut(old(sys), sys, p, fd)
    {
      if fd < 0 || fd >= OPEN_MAX {
        return Err(EBADF);
      }
      if Slot(p, fd) !in sys.refs {
        return Err(EBADF);
      }
      MoveKeeps(sys, Slot(p, fd), Hand(p, 0));
      sys := MoveRef(sys, Slot(p, fd), Hand(p, 0));
      hide SysOk;
      Decref(p, 0);
      r := Ok(());
    }

    /**
     sys_dup2: on success the new descriptor stands for the same open file as the old one and
     nothing else changes.
     */
    method SysDup2(p: Process, oldfd: int, newfd: int) returns (r: Result<int>)
      requires Quiet(sys)
      modifies this
      ensures Quiet(sys)
      ensures r.Ok? <==> 0 <= newfd < OPEN_MAX && (oldfd == newfd || IsOpen(old(sys), p, oldfd))
      ensures r.Err? ==> sys == old(sys) && r.e == EBADF
      ensures r.Ok? ==> r.value == newfd && SameTablesBut(old(sys), sys, p, newfd)
      ensures r.Ok? && oldfd != newfd ==>
                IsOpen(sys, p, newfd) && sys.refs[Slot(p, newfd)] == old(sys).refs[Slot(p, oldfd)]
      ensures r.Ok? && oldfd == newfd ==> sys == old(sys)
    {
      if newfd < 0 || newfd >= OPEN_MAX {
        return Err(EBADF);
      }
      if oldfd == newfd {
        return Ok(newfd);
      }
      if oldfd < 0 || oldfd >= OPEN_MAX || Slot(p, oldfd) !in sys.refs {
        return Err(EBADF);
      }
      ghost var before := sys;
      AddKeeps(sys, Slot(p, oldfd), Hand(p, 0));
      sys := AddRef(sys, Slot(p, oldfd), Hand(p, 0));
      hide SysOk;
      if Slot(p, newfd) in sys.refs {
        MoveKeeps(sys, Slot(p, newfd), Hand(p, 1));
        sys := MoveRef(sys, Slot(p, newfd), Hand(p, 1));
        MoveKeeps(sys, Hand(p, 0), Slot(p, newfd));
        sys := MoveRef(sys, Hand(p, 0), Slot(p, newfd));
        Decref(p, 1);
      } else {
        MoveKeeps(sys, Hand(p, 0), Slot(p, newfd));
        sys := MoveRef(sys, Hand(p, 0), Slot(p, newfd));
      }
      r := Ok(newfd);
    }

    /**
     filetable_copy, for fork: the child's table ends up the same as the parent's, sharing the
     open files, and no other table changes.
     */
    method Fork(p: Process, q: Process)
      requires Quiet(sys) && p != q && forall fd: nat :: Slot(q, fd) !in sys.refs
      modifies this
      ensures Quiet(sys)
      ensures forall fd: nat | fd < OPEN_MAX ::
                IsOpen(sys, q, fd) == IsOpen(old(sys), p, fd) && (IsOpen(sys, q, fd) ==>
                     sys.refs[Slot(q, fd)] == old(sys).refs[Slot(p, fd)])
      ensures forall r: Ref | r.Slot? && r.p != q :: (r in sys.refs <==> r in old(sys).refs) && (r in sys.refs ==>
                sys.refs[r] == old(sys).refs[r])
    {
      var fd := 0;
      while fd < OPEN_MAX
        invariant 0 <= fd <= OPEN_MAX && Quiet(sys)
        invariant forall e: nat | e < fd ::
                    IsOpen(sys, q, e) == IsOpen(old(sys), p, e) && (IsOpen(sys, q, e) ==>
                         sys.refs[Slot(q, e)] == old(sys).refs[Slot(p, e)])
        invariant forall e: nat | fd <= e :: Slot(q, e) !in sys.refs
        invariant forall r: Ref | r.Slot? && r.p != q :: (r in sys.refs <==> r in old(sys).refs) && (r in sys.refs ==>
                  sys.refs[r] == old(sys).refs[r])
      {
        assert Slot(p, fd) in sys.refs <==> Slot(p, fd) in old(sys).refs;
        if Slot(p, fd) in sys.refs {
          AddKeeps(sys, Slot(p, fd), Slot(q, fd));
          sys := AddRef(sys, Slot(p, fd), Slot(q, fd));
        }
        fd := fd + 1;
      }
    }

    // filetable_destroy, on exit: the table is empty and no other one has changed.
    method Exit(p: Process)
      requires Quiet(sys)
      modifies this
      ensures Quiet(sys)
      ensures forall fd: nat :: !IsOpen(sys, p, fd)
      ensures forall r: Ref | r.Slot? && r.p != p :: (r in sys.refs <==> r in old(sys).refs) && (r in sys.refs ==>
                sys.refs[r] == old(sys).refs[r])
    {
      var fd := 0;
      while fd < OPEN_MAX
        invariant 0 <= fd <= OPEN_MAX && Quiet(sys)
        invariant forall e: nat | e < fd :: Slot(p, e) !in sys.refs
        invariant forall r: Ref | r.Slot? && r.p != p :: (r in sys.refs <==> r in old(sys).refs) && (r in sys.refs ==>
                  sys.refs[r] == old(sys).refs[r])
      {
        if Slot(p, fd) in sys.refs {
          MoveKeeps(sys, Slot(p, fd), Hand(p, 0));
          sys := MoveRef(sys, Slot(p, fd), Hand(p, 0));
          Decref(p, 0);
        }
        fd := fd + 1;
      }
    }
  }

  lemma ClosingKnown(s: Sys, f: File)
    requires SysOk(s) && f in s.closing
    ensures f in s.closes
  {
    assert FileOk(s, f);
  }

  lemma MoveRest(s: Sys, r: Ref, r': Ref)
    requires r in s.refs
    ensures MoveRef(s, r, r').closing == s.closing && MoveRef(s, r, r').closes == s.closes
  {}
}
