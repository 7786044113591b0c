/**
 The argument buffer of exec: argument strings are gathered from the old program's
 memory into one kernel buffer and laid out again on the new program's stack.
 */
module Argv {
  import opened HeapMemory
  import opened CopyInOut

  const PAGE_SIZE := 4096
  const ARG_MAX := 65536

  type Args = seq<seq<Byte>>

  // ---------------------------------------------------------------- what is promised

  // base is an argv array in memory m for the list args: pointers to equal strings, then NULL.
  predicate ArgvAt(m: Memory, base: nat, args: Args) {
    && Mapped(m, base, 4 * (|args| + 1))
    && (forall i | 0 <= i < |args| :: PointsTo(m, base + 4 * i, args[i]))
    && Word(m, base + 4 * |args|) == 0
  }

  predicate PointsTo(m: Memory, a: nat, s: seq<Byte>) {
    Mapped(m, a, 4) && Word(m, a) != 0 && IsString(m, Word(m, a), s)
  }

  // An argv array has one reading: the list it decodes to is unique.
  lemma {:induction false} OneReading(m: Memory, base: nat, args: Args, args': Args)
    requires ArgvAt(m, base, args) && ArgvAt(m, base, args')
    ensures args == args'
    decreases |args|
  {
    hide IsString, Word;
    EmptyIffNull(m, base, args);
    EmptyIffNull(m, base, args');
    if |args| > 0 {
      assert PointsTo(m, base + 4 * 0, args[0]) && PointsTo(m, base + 4 * 0, args'[0]);
      OneString(m, Word(m, base), args[0], args'[0]);
      ArgvTail(m, base, args);
      ArgvTail(m, base, args');
      OneReading(m, base + 4, args[1..], args'[1..]);
      assert args == [args[0]] + args[1..] && args' == [args'[0]] + args'[1..];
    }
  }

  lemma EmptyIffNull(m: Memory, base: nat, args: Args)
    requires ArgvAt(m, base, args)
    ensures |args| == 0 <==> Word(m, base) == 0
  {
    hide IsString, Word;
    if |args| > 0 {
      assert PointsTo(m, base + 4 * 0, args[0]);
    }
  }

  lemma ArgvTail(m: Memory, base: nat, args: Args)
    requires ArgvAt(m, base, args) && |args| > 0
    ensures ArgvAt(m, base + 4, args[1..])
  {
    hide PointsTo, Word;
    forall i | 0 <= i < |args| - 1
      ensures PointsTo(m, base + 4 + 4 * i, args[1..][i])
    {
      assert PointsTo(m, base + 4 * (i + 1), args[i + 1]);
    }
  }

  // The kernel's image of the list: the strings one after the other, each with its NUL.
  function Pack(args: Args): seq<Byte> {
    if |args| == 0 then [] else Pack(args[..|args| - 1]) + args[|args| - 1] + [0]
  }

  lemma PackSnoc(args: Args, s: seq<Byte>)
    ensures Pack(args + [s]) == Pack(args) + s + [0]
  {
    assert (args + [s])[..|args|] == args;
  }

  // ---------------------------------------------------------------- the buffer

  class ArgBuf {
    var data: array<Byte>
    var len: nat
    var nargs: nat
    var tooksem: bool
    // Units of the exec throttle taken and not given back.
    var taken: int

    constructor ()
      ensures len == 0 && nargs == 0 && !tooksem && taken == 0
    {
      data := new Byte[0];
      len := 0;
      nargs := 0;
      tooksem := false;
      taken := 0;
    }

    ghost predicate Holds(args: Args)
      reads this, data
      ensures Holds(args) ==> |Pack(args)| == len <= data.Length
    {
      len <= data.Length && nargs == |args| && data[..len] == Pack(args) && forall i | 0 <= i < |args| :: NoNul(args[i])
    }

    // argbuf_cleanup: the throttle is given back exactly when it was taken.
    method Cleanup()
      modifies this
      ensures len == 0 && nargs == 0 && !tooksem
      ensures taken == old(taken) - (if old(tooksem) then 1 else 0)
    {
      data := new Byte[0];
      len := 0;
      nargs := 0;
      if tooksem {
        taken := taken - 1;
        tooksem := false;
      }
    }

    /**
     argbuf_copyin: on success the buffer holds exactly the list that the user's argv decodes to.
     For an argv that lies wholly in user space, the outcome is the one Fate says.
     */
    method CopyIn(user: Memory, uargv: nat) returns (r: Result<()>, ghost args: Args)
      requires uargv < WORD_LIMIT && len == 0 && data.Length <= ARG_MAX
      modifies this`len, this`nargs, data
      ensures r.Ok? ==> Holds(args) && ArgvAt(user, uargv, args)
      ensures forall want: Args | InUser(user, uargv, want) :: r == Fate(want, data.Length)
    {
      ghost var good := exists want: Args :: InUser(user, uargv, want);
      ghost var want: Args := [];
      if good {
        want :| InUser(user, uargv, want);
        OnlyReading(user, uargv, want);
      }
      hide InUser, Fate, ArgvAt;
      r, args := CopyInList(user, uargv, good, want);
    }

    // The loop; want is the list the array decodes to, if it is known to be a good one.
    method CopyInList(user: Memory, uargv: nat, ghost good: bool, ghost want: Args) returns (r: Result<()>,
          ghost args: Args)
      requires uargv < WORD_LIMIT && len == 0 && data.Length <= ARG_MAX && (good ==> InUser(user, uargv, want))
      modifies this`len, this`nargs, data
      ensures r.Ok? ==> Holds(args) && ArgvAt(user, uargv, args)
      ensures good ==> r == Fate(want, data.Length)
    {
      nargs := 0;
      args := [];
      assert Holds(args);
      hide IsString, Word, InUser, Fate, ReadSoFar, Agrees, Holds, ArgvAt, Follows, Mapped, Pack, Offset, PointsTo,
           Scan, Check;
      var p := uargv;
      NothingRead(user, uargv, good, want);
      while true
        invariant Holds(args) && p == uargv + 4 * |args| && p < WORD_LIMIT && len <= data.Length
        invariant ReadSoFar(user, uargv, args) && Agrees(good, want, args)
        decreases data.Length - len
      {
        var arg := CopyInWord(user, p);
        if good {
          NextInUser(user, uargv, want, |args|);
        }
        if arg.Err? {
          return Err(EFAULT), args;
        }
        if arg.value == 0 {
          ReadDone(user, uargv, args, good, want, data.Length);
          return Ok(()), args;
        }
        WordBound(user, p);
        var got, s := TakeString(user, arg.value, args);
        if good {
          SameOffset(want, args);
          TakenFate(user, arg.value, want, |args|, data.Length, got);
        }
        if got.Err? {
          return Err(if got.e == ENAMETOOLONG then E2BIG else got.e), args;
        }
        ReadNext(user, uargv, args, s, good, want);
        args := args + [s];
        p := p + 4;
      }
    }

    // One argument string into the buffer.
    method TakeString(user: Memory, a: nat, ghost args: Args) returns (got: Result<()>, ghost s: seq<Byte>)
      requires a < WORD_LIMIT && data.Length < WORD_LIMIT && Holds(args)
      modifies this`len, this`nargs, data
      ensures got.Ok? ==> Holds(args + [s]) && IsString(user, a, s) && len > old(len)
      ensures got.Err? ==> len == old(len) && nargs == old(nargs) && Holds(args)
      ensures Follows(user, a, data.Length - |Pack(args)|, got)
    {
      hide IsString, Scan, Check, Pack;
      ghost var before := data[..len];
      var r := CopyInStr(user, a, data, len, data.Length - len);
      assert data[..len] == before && len == |Pack(args)|;
      s := [];
      if r.Err? {
        return Err(r.e), s;
      }
      s := ScannedString(user, a, data.Length - len);
      assert data[..len + |s| + 1] == before + s + [0] by {
        assert data[..len + |s| + 1] == data[..len] + data[len..len + |s| + 1];
      }
      PackSnoc(args, s);
      assert NoNul(s) by {
        StringNoNul(user, a, s);
      }
      len := len + r.value;
      nargs := nargs + 1;
      got := Ok(());
    }

    /**
     argbuf_fromuser: a small buffer first, then the full-size one under the throttle. The
     throttle is held on return exactly when tooksem says so, also when allocation fails. For an
     argv in user space the outcome is the one Outcome says; with memory available it is taken if
     and only if its strings come to at most ARG_MAX bytes and no earlier arguments fill the small
     buffer exactly.
     */
    method FromUser(user: Memory, uargv: nat, smallOk: bool, bigOk: bool) returns (r: Result<()>, ghost args: Args)
      requires uargv < WORD_LIMIT && len == 0 && !tooksem
      modifies this
      ensures r.Ok? ==> Holds(args) && ArgvAt(user, uargv, args) && len <= ARG_MAX
      ensures taken == old(taken) + if tooksem then 1 else 0
      ensures forall want: Args | InUser(user, uargv, want) :: r == Outcome(want, smallOk, bigOk)
      ensures smallOk && bigOk ==> forall want: Args | InUser(user, uargv, want) ::
                r.Ok? <==> |Pack(want)| <= ARG_MAX && !FillsExactly(want, PAGE_SIZE)
    {
      hide InUser, ArgvAt;
      args := [];
      if !smallOk {
        return Err(ENOMEM), [];
      }
      data := new Byte[PAGE_SIZE];
      r, args := CopyIn(user, uargv);
      FitsWhole(PAGE_SIZE);
      if r == Err(E2BIG) {
        Cleanup();
        taken := taken + 1;
        tooksem := true;
        if !bigOk {
          return Err(ENOMEM), [];
        }
        data := new Byte[ARG_MAX];
        r, args := CopyIn(user, uargv);
      }
    }
  }

  /**
   argbuf_copyout: it succeeds exactly when the stack has room, and then the new stack holds an
   argv array for exactly the list in the buffer, word aligned, followed by the strings, all below
   the old stack pointer; nothing else in user memory changes.
   */
  method CopyOut(buf: ArgBuf, space: UserSpace, sp: nat, ghost args: Args) returns (r: Result<(nat, nat, nat)>)
    requires buf.Holds(args) && buf.len <= ARG_MAX && sp < WORD_LIMIT
    modifies space
    ensures space.mem.Keys == old(space.mem).Keys
    ensures r.Ok? <==> StackRoom(old(space.mem), sp, buf.len, |args|)
    ensures r.Ok? ==> var (sp', argc, uargv) := r.value;
                      && argc == |args| && sp' == uargv && uargv % 4 == 0 && ArgvAt(space.mem, uargv, args)
                      && uargv + 4 * (|args| + 1) + buf.len <= sp && Outside(old(space.mem), space.mem, uargv, sp)
                      && (forall i | 0 <= i < |args| :: uargv + 4 * (|args| + 1) <= Word(space.mem, uargv + 4 * i))
  {
    hide IsString, Word, Check, PointsTo, Placed, StringBase, ArgvBase, Pack;
    var n := buf.nargs;
    var strings, base := StringBase(sp, buf.len), ArgvBase(sp, buf.len, n);
    Ends(args, sp);
    RoomIs(space.mem, sp, buf.len, n);
    ghost var room := StackRoom(space.mem, sp, buf.len, n);
    hide StackRoom, Mapped;
    var src := buf.data[..buf.len];
    var pos := 0;
    ghost var i := 0;
    var a := base;
    NonePlaced(space.mem, base, strings, args);
    while pos < buf.len
      invariant 0 <= i <= n && pos == Offset(args, i) && a == base + 4 * i && a < WORD_LIMIT
      invariant (i > 0 ==> base + 4 <= USERSPACETOP && strings + pos <= USERSPACETOP)
                && space.mem.Keys == old(space.mem).Keys
      invariant Placed(space.mem, base, strings, args, i)
      invariant if i == 0 then space.mem == old(space.mem) else Outside(old(space.mem), space.mem, base, sp)
      decreases n - i
    {
      OffsetEnd(args, i);
      if room {
        MappedSame(old(space.mem), space.mem, base, strings + buf.len - base);
      }
      var sent := PlaceOne(space, src, strings, pos, a, sp, args, base, i, room);
      if sent.Err? {
        return Err(sent.e);
      }
      pos := pos + sent.value;
      a := a + 4;
      i := i + 1;
    }
    OffsetEnd(args, i);
    ghost var m := space.mem;
    if room {
      MappedSame(old(space.mem), m, base, strings + buf.len - base);
      MappedPart(m, base, strings + buf.len - base, a, 4);
    }
    var ended := space.CopyOutWord(0, a);
    if ended.Err? {
      return Err(EFAULT);
    }
    AllPlaced(m, space.mem, base, strings, args);
    MappedSame(space.mem, old(space.mem), base, strings + buf.len - base);
    return Ok((base, n, base));
  }

  // One turn of argbuf_copyout's loop: a pointer and the string it points to.
  method PlaceOne(space: UserSpace, src: seq<Byte>, strings: nat, pos: nat, a: nat, sp: nat, ghost args: Args,
        ghost base: nat, ghost i: nat, ghost room: bool)
    returns (r: Result<nat>)
    requires src == Pack(args) && |src| <= ARG_MAX && i < |args| && NoNul(args[i]) && pos == Offset(args, i)
             && a == base + 4 * i < WORD_LIMIT
    requires a + 4 <= USERSPACETOP ==> base + 4 * (|args| + 1) == strings && strings + |src| <= sp < WORD_LIMIT
    requires Placed(space.mem, base, strings, args, i)
    requires room ==>
              base + 4 * (|args| + 1) == strings && strings + |src| <= USERSPACETOP
              && Mapped(space.mem, base, strings + |src| - base)
    modifies space
    ensures space.mem.Keys == old(space.mem).Keys && (room ==> r.Ok?)
    ensures r.Ok? ==>
              a + 4 <= USERSPACETOP && pos + r.value == Offset(args, i + 1) && strings + pos + r.value <= USERSPACETOP
    ensures r.Ok? ==> Placed(space.mem, base, strings, args, i + 1) && Outside(old(space.mem), space.mem, a, sp)
  {
    hide IsString, Word, Check, PointsTo, Placed, Pack, Mapped;
    PackAt(args, i);
    var thisarg := (strings + pos) % WORD_LIMIT;
    ghost var m0 := space.mem;
    if room {
      MappedPart(m0, base, strings + |src| - base, a, 4);
    }
    var stored := space.CopyOutWord(thisarg, a);
    if stored.Err? {
      return Err(EFAULT);
    }
    ghost var m1 := space.mem;
    assert thisarg == strings + pos;
    MappedSame(m0, m1, a, 4);
    if room {
      MappedSame(m0, m1, base, strings + |src| - base);
      MappedPart(m1, base, strings + |src| - base, thisarg, |args[i]| + 1);
      CheckFits(thisarg, |src| - pos);
    }
    PlacedFrame(m0, m1, base, strings, args, i, a, a + 4);
    StringLength(src, pos, |src| - pos, args[i]);
    r := space.CopyOutStr(src, pos, thisarg, |src| - pos);
    if r.Ok? {
      CheckEnds(thisarg, |src| - pos);
      NextPlaced(m1, space.mem, base, strings, args, i);
    }
  }

  // The length of a string that is followed by its NUL.
  lemma StringLength(src: seq<Byte>, at: nat, len: nat, s: seq<Byte>)
    requires at + len <= |src| && |s| < len && NoNul(s) && src[at..at + |s| + 1] == s + [0]
    ensures StrLen(src[at..at + len]) == |s| && src[at..at + len][..|s|] == s
  {
    var t := src[at..at + len];
    hide StrLen;
    assert t[..|s| + 1] == s + [0];
    assert t[|s|] == t[..|s| + 1][|s|] == 0;
    assert forall i | 0 <= i < |s| :: t[i] == t[..|s| + 1][i] == s[i];
    assert t[..|s|] == t[..|s| + 1][..|s|];
  }

  /**
   The stack the arguments need is there: len bytes of strings up to a word boundary at or below
   sp - len, and below them n + 1 pointers, all of it mapped and in user space.
   */
  predicate StackRoom(m: Memory, sp: nat, len: nat, n: nat) {
    len <= sp &&
    var strings := sp - len - (sp - len) % 4;
    4 * (n + 1) <= strings && strings + len <= USERSPACETOP && Mapped(m, strings - 4 * (n + 1), 4 * (n + 1) + len)
  }

  lemma RoomIs(m: Memory, sp: nat, len: nat, n: nat)
    requires sp < WORD_LIMIT && n <= len <= ARG_MAX
    ensures var strings, base := StringBase(sp, len), ArgvBase(sp, len, n);
            StackRoom(m, sp, len, n) <==>
              base + 4 * (n + 1) == strings && strings + len <= USERSPACETOP && Mapped(m, base, strings + len - base)
  {
    hide Mapped;
    if sp >= len {
      assert (sp - len) % WORD_LIMIT == sp - len;
    } else {
      assert (sp - len) % WORD_LIMIT == sp - len + WORD_LIMIT;
    }
  }

  lemma MappedPart(m: Memory, a: nat, n: nat, b: nat, k: nat)
    requires Mapped(m, a, n) && a <= b && b + k <= a + n
    ensures Mapped(m, b, k)
  {}

  lemma MappedSame(m: Memory, m': Memory, a: nat, n: nat)
    requires Mapped(m, a, n) && m'.Keys == m.Keys
    ensures Mapped(m', a, n)
  {}

  lemma CheckFits(a: nat, len: nat)
    requires 0 < len && a + len <= USERSPACETOP
    ensures Check(a, len) == Ok(len)
  {}

  lemma CheckEnds(a: nat, len: nat)
    ensures len > 0 && Check(a, len).Ok? ==> a + Check(a, len).value <= USERSPACETOP
  {}

  lemma NonePlaced(m: Memory, base: nat, strings: nat, args: Args)
    ensures Offset(args, 0) == 0 && Placed(m, base, strings, args, 0)
  {}

  // The figures of argbuf_copyout before its loop.
  lemma Ends(args: Args, sp: nat)
    requires |Pack(args)| <= ARG_MAX && sp < WORD_LIMIT
    ensures var base, strings := ArgvBase(sp, |Pack(args)|, |args|), StringBase(sp, |Pack(args)|);
            && base < WORD_LIMIT && |args| <= |Pack(args)|
            && (base + 4 <= USERSPACETOP ==>
                  base % 4 == 0 && base + 4 * (|args| + 1) == strings && strings + |Pack(args)| <= sp)
  {
    hide StringBase, Pack;
    OffsetEnd(args, |args|);
    assert args[..|args|] == args;
    var base := ArgvBase(sp, |Pack(args)|, |args|);
    if base + 4 <= USERSPACETOP {
      hide ArgvBase;
      NoWrap(sp, |Pack(args)|, |args|);
    }
  }

  // With the NULL stored, the array is complete.
  lemma AllPlaced(m: Memory, m': Memory, base: nat, strings: nat, args: Args)
    requires base + 4 * (|args| + 1) <= strings && Placed(m, base, strings, args, |args|)
    requires Outside(m, m', base + 4 * |args|, base + 4 * |args| + 4) && Mapped(m, base + 4 * |args|, 4)
             && Word(m', base + 4 * |args|) == 0
    ensures ArgvAt(m', base, args)
    ensures forall i | 0 <= i < |args| :: strings <= Word(m', base + 4 * i)
    ensures base + 4 * (|args| + 1) == strings ==> Mapped(m', base, strings + |Pack(args)| - base)
  {
    hide IsString, Word, Pack;
    var n := |args|;
    assert args[..n] == args;
    StringsMapped(m, base, strings, args, n);
    PlacedFrame(m, m', base, strings, args, n, base + 4 * n, base + 4 * n + 4);
    PointersMapped(m', base, args, n);
    assert Mapped(m', base, 4 * (n + 1));
    forall i | 0 <= i < n
      ensures strings <= Word(m', base + 4 * i)
    {
      assert PointsTo(m', base + 4 * i, args[i]);
    }
  }

  lemma StringsMapped(m: Memory, base: nat, strings: nat, args: Args, n: nat)
    requires n <= |args| && Placed(m, base, strings, args, n)
    ensures Mapped(m, strings, Offset(args, n))
  {
    hide Word, Pack;
    if n == 0 {
      NonePlaced(m, base, strings, args);
    } else {
      StringsMapped(m, base, strings, args, n - 1);
      PackAt(args, n - 1);
      assert PointsTo(m, base + 4 * (n - 1), args[n - 1]);
    }
  }

  lemma PointersMapped(m: Memory, base: nat, args: Args, n: nat)
    requires n <= |args| && forall j | 0 <= j < n :: PointsTo(m, base + 4 * j, args[j])
    ensures Mapped(m, base, 4 * n)
  {
    hide IsString, Word;
    if n > 0 {
      PointersMapped(m, base, args, n - 1);
      assert PointsTo(m, base + 4 * (n - 1), args[n - 1]);
    }
  }

  // ---------------------------------------------------------------- what gets through

  // The whole argv, pointers and strings, lies in mapped user space.
  predicate InUser(m: Memory, base: nat, args: Args) {
    && ArgvAt(m, base, args) && base + 4 * (|args| + 1) <= USERSPACETOP
    && forall i | 0 <= i < |args| :: Word(m, base + 4 * i) + |args[i]| + 1 <= USERSPACETOP
  }

  // Some arguments come to exactly cap bytes and there is another one after them.
  ghost predicate FillsExactly(args: Args, cap: nat) {
    exists k: nat :: k < |args| && Offset(args, k) == cap
  }

  /**
   What argbuf_copyin makes of a list with a buffer of cap bytes. When the buffer is exactly full
   copyinstr is called with no room at all, which copycheck answers with EFAULT, not ENAMETOOLONG.
   */
  ghost function Fate(args: Args, cap: nat): Result<()> {
    if |Pack(args)| <= cap then Ok(()) else if FillsExactly(args, cap) then Err(EFAULT) else Err(E2BIG)
  }

  // What argbuf_fromuser makes of a list, with and without memory for its two buffers.
  ghost function Outcome(args: Args, smallOk: bool, bigOk: bool): Result<()> {
    if !smallOk then Err(ENOMEM)
    else if |Pack(args)| <= PAGE_SIZE then Ok(())
    else if FillsExactly(args, PAGE_SIZE) then Err(EFAULT)
    else if !bigOk then Err(ENOMEM)
    else if |Pack(args)| <= ARG_MAX then Ok(())
    else if FillsExactly(args, ARG_MAX) then Err(EFAULT)
    else Err(E2BIG)
  }

  // The next pointer can be read: it is NULL exactly at the end, else it names the next string.
  lemma NextInUser(m: Memory, base: nat, args: Args, i: nat)
    requires InUser(m, base, args) && i <= |args|
    ensures base + 4 * i + 4 <= USERSPACETOP && Mapped(m, base + 4 * i, 4)
    ensures Word(m, base + 4 * i) == 0 <==> i == |args|
    ensures i < |args| ==>
              IsString(m, Word(m, base + 4 * i), args[i]) && Word(m, base + 4 * i) + |args[i]| + 1 <= USERSPACETOP
  {
    hide IsString, Word;
    if i < |args| {
      assert PointsTo(m, base + 4 * i, args[i]);
    }
  }

  // The arguments taken so far are those the array starts with.
  predicate ReadSoFar(m: Memory, base: nat, args: Args) {
    Mapped(m, base, 4 * |args|) && forall i | 0 <= i < |args| :: PointsTo(m, base + 4 * i, args[i])
  }

  ghost predicate Agrees(good: bool, want: Args, args: Args) {
    good ==> |args| <= |want| && args == want[..|args|]
  }

  lemma SameOffset(want: Args, args: Args)
    requires Agrees(true, want, args)
    ensures |args| <= |want| && Offset(want, |args|) == |Pack(args)|
  {}

  lemma NothingRead(m: Memory, base: nat, good: bool, want: Args)
    ensures ReadSoFar(m, base, []) && Agrees(good, want, [])
  {}

  lemma ReadNext(m: Memory, base: nat, args: Args, s: seq<Byte>, good: bool, want: Args)
    requires ReadSoFar(m, base, args) && Mapped(m, base + 4 * |args|, 4) && Word(m, base + 4 * |args|) != 0
    requires IsString(m, Word(m, base + 4 * |args|), s) && Agrees(good, want, args)
    requires good ==> |args| < |want| && IsString(m, Word(m, base + 4 * |args|), want[|args|])
    ensures ReadSoFar(m, base, args + [s]) && Agrees(good, want, args + [s])
  {
    hide IsString, Word;
    var n := |args|;
    assert PointsTo(m, base + 4 * n, s);
    if good {
      OneString(m, Word(m, base + 4 * n), s, want[n]);
      assert want[..n + 1] == want[..n] + [want[n]];
    }
  }

  lemma ReadDone(m: Memory, base: nat, args: Args, good: bool, want: Args, cap: nat)
    requires ReadSoFar(m, base, args) && Mapped(m, base + 4 * |args|, 4) && Word(m, base + 4 * |args|) == 0
    requires |Pack(args)| <= cap && Agrees(good, want, args) && (good ==> |args| == |want|)
    ensures ArgvAt(m, base, args) && (good ==> Fate(want, cap) == Ok(()))
  {
    hide IsString, Word, Pack, PointsTo;
    assert want[..|want|] == want;
  }

  // copyinstr's outcome for the string at a, with room bytes left, passed on.
  predicate Follows(m: Memory, a: nat, room: int, got: Result<()>) {
    room >= 0 &&
    if Check(a, room).Err? then got == Err(EFAULT)
    else match Scan(m, a, room, Check(a, room).value)
      case Ok(_) => got.Ok?
      case Err(e) => got == Err(e)
  }

  lemma {:induction false} ScanTooLong(m: Memory, a: nat, maxlen: nat, stoplen: nat, s: seq<Byte>)
    requires IsString(m, a, s) && maxlen <= |s| && maxlen <= stoplen
    ensures Scan(m, a, maxlen, stoplen) == Err(ENAMETOOLONG)
    decreases maxlen
  {
    if maxlen > 0 {
      assert a in m && m[a + 0] == s[0];
      StringTail(m, a, s);
      hide IsString;
      ScanTooLong(m, a + 1, maxlen - 1, stoplen - 1, s[1..]);
    }
  }

  // Taking argument i of a list: it fits, or what happens is the list's fate.
  lemma TakenFate(m: Memory, a: nat, args: Args, i: nat, cap: nat, got: Result<()>)
    requires i < |args| && IsString(m, a, args[i]) && 0 < a && a + |args[i]| + 1 <= USERSPACETOP && cap <= ARG_MAX
    requires Follows(m, a, cap - Offset(args, i), got)
    ensures got.Err? ==> Fate(args, cap) == Err(if got.e == ENAMETOOLONG then E2BIG else got.e)
  {
    var s, room := args[i], cap - Offset(args, i);
    PackAt(args, i);
    OffsetEnd(args, i + 1);
    if |s| < room {
      ScanFinds(m, a, room, Check(a, room).value, s);
    } else if room == 0 {
      assert FillsExactly(args, cap);
    } else {
      ScanTooLong(m, a, room, Check(a, room).value, s);
      hide Offset, IsString, Scan;
      NoExactFill(args, i, cap);
    }
  }

  lemma NoExactFill(args: Args, i: nat, cap: nat)
    requires i < |args| && Offset(args, i) < cap < Offset(args, i + 1)
    ensures !FillsExactly(args, cap)
  {
    hide Offset;
    forall k: nat | k < |args|
      ensures Offset(args, k) != cap
    {
      if k < i {
        OffsetMono(args, k, i);
      } else if k > i + 1 {
        OffsetMono(args, i + 1, k);
      }
    }
  }

  // A list that fits as a whole does not fill the buffer before its end.
  lemma FitsWhole(cap: nat)
    ensures forall args: Args | |Pack(args)| <= cap :: !FillsExactly(args, cap)
  {
    forall args: Args | |Pack(args)| <= cap
      ensures !FillsExactly(args, cap)
    {
      forall k: nat | k < |args|
        ensures Offset(args, k) != cap
      {
        OffsetEnd(args, k);
      }
    }
  }

  // ---------------------------------------------------------------- laying out the stack

  // Bytes taken by the first i strings.
  function Offset(args: Args, i: nat): nat
    requires i <= |args|
  {
    |Pack(args[..i])|
  }

  // The i-th string sits at its offset, and the next one right after its NUL.
  lemma {:induction false} PackAt(args: Args, i: nat)
    requires i < |args|
    ensures Offset(args, i + 1) == Offset(args, i) + |args[i]| + 1 <= |Pack(args)|
    ensures Pack(args)[Offset(args, i)..Offset(args, i) + |args[i]| + 1] == args[i] + [0]
    decreases |args|
  {
    var n := |args| - 1;
    var front := args[..n];
    assert args[..i + 1][..i] == args[..i];
    if i == n {
      assert args[..i + 1] == args;
    } else {
      PackAt(front, i);
      assert front[..i] == args[..i] && front[..i + 1] == args[..i + 1];
      assert Pack(args) == Pack(front) + args[n] + [0];
    }
  }

  lemma {:induction false} OffsetMono(args: Args, i: nat, j: nat)
    requires i < j <= |args|
    ensures Offset(args, i) + |args[i]| + 1 <= Offset(args, j)
    decreases j
  {
    PackAt(args, j - 1);
    if i < j - 1 {
      OffsetMono(args, i, j - 1);
    }
  }

  // All offsets are below the total, reached only after the last string.
  lemma OffsetEnd(args: Args, i: nat)
    requires i <= |args|
    ensures Offset(args, i) <= |Pack(args)| && (Offset(args, i) == |Pack(args)| <==> i == |args|)
    ensures i <= Offset(args, i)
  {
    assert args[..|args|] == args;
    if i < |args| {
      OffsetMono(args, i, |args|);
    }
    CountOffset(args, i);
  }

  lemma {:induction false} CountOffset(args: Args, i: nat)
    requires i <= |args|
    ensures i <= Offset(args, i)
  {
    if i > 0 {
      CountOffset(args, i - 1);
      PackAt(args, i - 1);
    }
  }

  // Where argbuf_copyout puts the strings and the pointer array, in 32-bit arithmetic.
  function StringBase(sp: nat, len: nat): nat {
    var u := (sp - len) % WORD_LIMIT;
    u - u % 4
  }

  function ArgvBase(sp: nat, len: nat, n: nat): nat {
    (StringBase(sp, len) - 4 * (n + 1)) % WORD_LIMIT
  }

  // If the first pointer can be stored at all, nothing wrapped around.
  lemma NoWrap(sp: nat, len: nat, n: nat)
    requires sp < WORD_LIMIT && n <= len <= ARG_MAX && ArgvBase(sp, len, n) + 4 <= USERSPACETOP
    ensures ArgvBase(sp, len, n) % 4 == 0 && ArgvBase(sp, len, n) + 4 * (n + 1) == StringBase(sp, len)
    ensures StringBase(sp, len) + len <= sp
  {}

  lemma PointsToFrame(m: Memory, m': Memory, a: nat, s: seq<Byte>, lo: nat, hi: nat)
    requires PointsTo(m, a, s) && Outside(m, m', lo, hi)
    requires a + 4 <= lo || hi <= a
    requires Word(m, a) + |s| + 1 <= lo || hi <= Word(m, a)
    ensures PointsTo(m', a, s) && Word(m', a) == Word(m, a)
  {
    hide Compose;
    assert Word(m', a) == Word(m, a);
    var p := Word(m, a);
    forall i | 0 <= i < |s|
      ensures m'[p + i] == s[i]
    {
      assert m[p + i] == s[i];
    }
  }

  // The first i arguments are in place above base, their strings from strings on.
  predicate Placed(m: Memory, base: nat, strings: nat, args: Args, i: nat)
    requires i <= |args|
  {
    forall j | 0 <= j < i :: PointsTo(m, base + 4 * j, args[j]) && Word(m, base + 4 * j) == strings + Offset(args, j)
  }

  lemma PlacedFrame(m: Memory, m': Memory, base: nat, strings: nat, args: Args, i: nat, lo: nat, hi: nat)
    requires i <= |args| && base + 4 * i <= strings && Placed(m, base, strings, args, i) && Outside(m, m', lo, hi)
    requires base + 4 * i <= lo && (hi <= strings || strings + Offset(args, i) <= lo)
    ensures Placed(m', base, strings, args, i)
  {
    hide IsString, Word, Outside, Offset;
    forall j | 0 <= j < i
      ensures PointsTo(m', base + 4 * j, args[j]) && Word(m', base + 4 * j) == strings + Offset(args, j)
    {
      OffsetMono(args, j, i);
      assert Offset(args, j) >= 0;
      PointsToFrame(m, m', base + 4 * j, args[j], lo, hi);
    }
  }

  // The pointer is stored, then its string: one more argument is in place.
  lemma NextPlaced(m: Memory, m': Memory, base: nat, strings: nat, args: Args, i: nat)
    requires i < |args| && base + 4 * (i + 1) <= strings && Placed(m, base, strings, args, i)
    requires Mapped(m, base + 4 * i, 4) && Word(m, base + 4 * i) == strings + Offset(args, i)
    requires IsString(m', strings + Offset(args, i), args[i])
    requires Outside(m, m', strings + Offset(args, i), strings + Offset(args, i) + |args[i]| + 1)
    ensures Placed(m', base, strings, args, i + 1)
  {
    hide IsString, Compose;
    var p := strings + Offset(args, i);
    PlacedFrame(m, m', base, strings, args, i, p, p + |args[i]| + 1);
    assert Word(m', base + 4 * i) == p;
  }

  lemma WordBound(m: Memory, a: nat)
    requires Mapped(m, a, 4)
    ensures Word(m, a) < WORD_LIMIT
  {}

  lemma StringNoNul(m: Memory, a: nat, s: seq<Byte>)
    requires IsString(m, a, s)
    ensures NoNul(s)
  {}

  // The string copyinstr found.
  lemma ScannedString(m: Memory, a: nat, len: nat) returns (s: seq<Byte>)
    requires Check(a, len).Ok? && Scan(m, a, len, Check(a, len).value).Ok?
    ensures Scan(m, a, len, Check(a, len).value) == Ok(s) && IsString(m, a, s)
  {
    s := Scan(m, a, len, Check(a, len).value).value;
    ScanFinds(m, a, len, Check(a, len).value, s);
  }

  /**
   exec's handling of an argument list from start to end: what the new program finds on its
   stack decodes to exactly what the old program passed, and the throttle is back where it was.
   An argv in user space gets there if and only if it is taken in and the new stack has room for it.
   */
  method PassArguments(buf: ArgBuf, user: Memory, uargv: nat, space: UserSpace, sp: nat, smallOk: bool, bigOk: bool)
    returns (r: Result<(nat, nat, nat)>)
    requires uargv < WORD_LIMIT && sp < WORD_LIMIT && buf.len == 0 && !buf.tooksem
    modifies buf, buf.data, space
    ensures r.Ok? ==>
              exists args: Args ::
                ArgvAt(user, uargv, args) && ArgvAt(space.mem, r.value.2, args) && r.value.1 == |args|
    ensures r.Ok? ==>
              forall args: Args, args': Args | ArgvAt(user, uargv, args)
              && ArgvAt(space.mem, r.value.2, args') :: args == args'
    ensures forall want: Args | InUser(user, uargv, want) ::
              if Outcome(want, smallOk, bigOk).Ok? then r.Ok? <==> StackRoom(old(space.mem), sp, |Pack(want)|, |want|)
              else r == Err(Outcome(want, smallOk, bigOk).e)
    ensures buf.taken == old(buf.taken)
  {
    hide ArgvAt, Outside, Word, StackRoom, Outcome;
    var got, args := buf.FromUser(user, uargv, smallOk, bigOk);
    if got.Err? {
      buf.Cleanup();
      return Err(got.e);
    }
    OnlyReading(user, uargv, args);
    r := CopyOut(buf, space, sp, args);
    buf.Cleanup();
    if r.Ok? {
      SameReading(user, uargv, space.mem, r.value.2, args);
    }
  }

  lemma OnlyReading(m: Memory, a: nat, args: Args)
    requires ArgvAt(m, a, args)
    ensures forall want: Args | InUser(m, a, want) :: want == args
  {
    forall want: Args | InUser(m, a, want)
      ensures want == args
    {
      hide ArgvAt;
      OneReading(m, a, want, args);
    }
  }

  lemma SameReading(m: Memory, a: nat, m': Memory, b: nat, args: Args)
    requires ArgvAt(m, a, args) && ArgvAt(m', b, args)
    ensures forall x: Args, y: Args | ArgvAt(m, a, x) && ArgvAt(m', b, y) :: x == y
  {
    hide ArgvAt;
    forall x: Args, y: Args | ArgvAt(m, a, x) && ArgvAt(m', b, y)
      ensures x == y
    {
      OneReading(m, a, args, x);
      OneReading(m', b, args, y);
    }
  }
}
