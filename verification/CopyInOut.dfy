/**
 Moving bytes across the user-kernel boundary. User memory is the map of the
 addresses that are mapped; touching any other address is the fault that the copy
 functions turn into EFAULT.
 */
module CopyInOut {
  import opened Bits
  import opened HeapMemory

  const USERSPACETOP := 0x8000_0000

  datatype Errno = EFAULT | ENAMETOOLONG | E2BIG | ENOMEM
  datatype Result<+T> = Ok(value: T) | Err(e: Errno)

  type Memory = map<nat, Byte>

  predicate Mapped(m: Memory, a: nat, n: nat) {
    forall i | a <= i < a + n :: i in m
  }

  // A word from its bytes, most significant first.
  function Compose(b0: nat, b1: nat, b2: nat, b3: nat): nat {
    b0 * 0x100_0000 + b1 * 0x1_0000 + b2 * 0x100 + b3
  }

  lemma ComposeBytes(w: nat)
    requires w < WORD_LIMIT
    ensures w / 0x100_0000 < 0x100
    ensures Compose(w / 0x100_0000, w / 0x1_0000 % 0x100, w / 0x100 % 0x100, w % 0x100) == w
  {
    var x := w / 0x100;
    var y := x / 0x100;
    DivDiv(w, 0x100, 0x100);
    DivDiv(w, 0x1_0000, 0x100);
    assert w / 0x1_0000 == y && w / 0x100_0000 == y / 0x100;
    assert w == 0x100 * x + w % 0x100 && x == 0x100 * y + x % 0x100 && y == 0x100 * (y / 0x100) + y % 0x100;
  }

  function Word(m: Memory, a: nat): nat
    requires Mapped(m, a, 4)
  {
    Compose(m[a], m[a + 1], m[a + 2], m[a + 3])
  }

  // ---------------------------------------------------------------- the range check

  /**
   copycheck, in 32-bit arithmetic: how much of a region may be touched before user space ends.
   */
  method CopyCheck(bot: nat, len: nat) returns (r: Result<nat>)
    requires bot < WORD_LIMIT && len < WORD_LIMIT
    ensures r == Check(bot, len)
    ensures r.Ok? <==> if len == 0 then bot == 0 else bot < USERSPACETOP && bot + len <= WORD_LIMIT
    ensures r.Ok? && len > 0 ==>
              r.value <= len && bot + r.value <= USERSPACETOP && (r.value == len || bot + r.value == USERSPACETOP)
    ensures r.Err? ==> r.e == EFAULT
  {
    var top := (bot + len - 1) % WORD_LIMIT;
    if top < bot {
      return Err(EFAULT);
    }
    if bot >= USERSPACETOP {
      return Err(EFAULT);
    }
    if top >= USERSPACETOP {
      return Ok(USERSPACETOP - bot);
    }
    return Ok(len);
  }

  // The non-empty regions that start in user space and do not wrap, cut off at its end; an empty
  // region is refused, except at address 0.
  function Check(bot: nat, len: nat): Result<nat> {
    if len == 0 then if bot == 0 then Ok(USERSPACETOP) else Err(EFAULT)
    else if bot < USERSPACETOP && bot + len <= WORD_LIMIT then Ok(if bot + len <= USERSPACETOP then len
      else USERSPACETOP - bot)
    else Err(EFAULT)
  }

  // copyin of one pointer.
  method CopyInWord(user: Memory, a: nat) returns (r: Result<nat>)
    requires a < WORD_LIMIT
    ensures r.Ok? <==> a + 4 <= USERSPACETOP && Mapped(user, a, 4)
    ensures r.Ok? ==> r.value == Word(user, a)
    ensures r.Err? ==> r.e == EFAULT
  {
    var stop := CopyCheck(a, 4);
    if stop.Err? {
      return Err(EFAULT);
    }
    if stop.value != 4 {
      return Err(EFAULT);
    }
    if a !in user || a + 1 !in user || a + 2 !in user || a + 3 !in user {
      return Err(EFAULT);
    }
    assert Mapped(user, a, 4);
    return Ok(Word(user, a));
  }

  // ---------------------------------------------------------------- strings

  predicate NoNul(s: seq<Byte>) {
    forall i | 0 <= i < |s| :: s[i] != 0
  }

  // The NUL-terminated string s lies at a.
  predicate IsString(m: Memory, a: nat, s: seq<Byte>) {
    && NoNul(s) && Mapped(m, a, |s| + 1)
    && (forall i | 0 <= i < |s| :: m[a + i] == s[i]) && m[a + |s|] == 0
  }

  /**
   What copystr finds reading at a: the string, or why not. Running into the end of user space
   or an unmapped byte is EFAULT; running out of room first is ENAMETOOLONG.
   */
  function Scan(m: Memory, a: nat, maxlen: nat, stoplen: nat): Result<seq<Byte>>
    decreases maxlen
  {
    if maxlen == 0 || stoplen == 0 then Err(if stoplen < maxlen then EFAULT else ENAMETOOLONG)
    else if a !in m then Err(EFAULT)
    else if m[a] == 0 then Ok([])
    else match Scan(m, a + 1, maxlen - 1, stoplen - 1)
      case Ok(s) => Ok([m[a]] + s)
      case Err(e) => Err(e)
  }

  // Scan finds exactly the string that is there, when it fits.
  lemma {:induction false} ScanFinds(m: Memory, a: nat, maxlen: nat, stoplen: nat, s: seq<Byte>)
    ensures Scan(m, a, maxlen, stoplen) == Ok(s) <==> IsString(m, a, s) && |s| < maxlen && |s| < stoplen
    decreases maxlen
  {
    if maxlen > 0 && stoplen > 0 && a in m {
      assert IsString(m, a, s) && |s| > 0 ==> m[a + 0] == s[0];
      if m[a] != 0 && |s| > 0 {
        ScanFinds(m, a + 1, maxlen - 1, stoplen - 1, s[1..]);
        StringTail(m, a, s);
        assert s == [s[0]] + s[1..];
      }
    }
  }

  // n mapped bytes from a on, none of them NUL.
  predicate NoEnd(m: Memory, a: nat, n: nat) {
    forall i | a <= i < a + n :: i in m && m[i] != 0
  }

  // It gives up for want of room exactly when all the room was used and the limit was not the range.
  lemma {:induction false} ScanGivesUp(m: Memory, a: nat, maxlen: nat, stoplen: nat)
    ensures Scan(m, a, maxlen, stoplen) == Err(ENAMETOOLONG) <==> maxlen <= stoplen && NoEnd(m, a, maxlen)
    ensures var r := Scan(m, a, maxlen, stoplen); r.Err? ==> r.e == EFAULT || r.e == ENAMETOOLONG
    decreases maxlen
  {
    if maxlen > 0 && stoplen > 0 && a in m && m[a] != 0 {
      ScanGivesUp(m, a + 1, maxlen - 1, stoplen - 1);
      assert NoEnd(m, a, maxlen) <==> NoEnd(m, a + 1, maxlen - 1);
    }
  }

  lemma OneString(m: Memory, a: nat, s: seq<Byte>, t: seq<Byte>)
    requires IsString(m, a, s) && IsString(m, a, t)
    ensures s == t
  {
    var n := |s| + |t| + 1;
    ScanFinds(m, a, n, n, s);
    ScanFinds(m, a, n, n, t);
  }

  lemma StringTail(m: Memory, a: nat, s: seq<Byte>)
    requires |s| > 0 && a in m && m[a] != 0
    ensures IsString(m, a, s) <==> s[0] == m[a] && IsString(m, a + 1, s[1..])
  {
    if IsString(m, a, s) {
      forall i | 0 <= i < |s| - 1
        ensures m[a + 1 + i] == s[1..][i]
      {
        assert m[a + (i + 1)] == s[i + 1];
      }
      assert m[a + 0] == s[0];
    }
    if s[0] == m[a] && IsString(m, a + 1, s[1..]) {
      forall i | 0 <= i < |s|
        ensures s[i] != 0 && m[a + i] == s[i]
      {
        if i > 0 {
          assert s[1..][i - 1] == s[i] && m[a + 1 + (i - 1)] == s[1..][i - 1];
        }
      }
    }
  }

  /**
   copyinstr into dest[at..at + len]: the string and its NUL are copied and counted, and nothing
   outside that range of dest is touched.
   */
  method CopyInStr(user: Memory, src: nat, dest: array<Byte>, at: nat, len: nat) returns (r: Result<nat>)
    requires src < WORD_LIMIT && at + len <= dest.Length < WORD_LIMIT
    modifies dest
    ensures forall i | 0 <= i < dest.Length && !(at <= i < at + len) :: dest[i] == old(dest[i])
    ensures Check(src, len).Err? ==> r == Err(EFAULT)
    ensures Check(src, len).Ok? ==>
              match Scan(user, src, len, Check(src, len).value)
              case Ok(s) => r == Ok(|s| + 1) && |s| < len && dest[at..at + |s| + 1] == s + [0]
              case Err(e) => r == Err(e)
    ensures r.Ok? <==>
              src + len <= WORD_LIMIT
              && exists s: seq<Byte> :: IsString(user, src, s) && |s| < len && src + |s| < USERSPACETOP
    ensures r == Err(ENAMETOOLONG) <==>
              src + len <= USERSPACETOP && NoEnd(user, src, len) && (len == 0 ==> src == 0)
    ensures r.Err? ==> r.e == EFAULT || r.e == ENAMETOOLONG
  {
    hide Scan, IsString, NoEnd;
    var stop := CopyCheck(src, len);
    if stop.Err? {
      return Err(EFAULT);
    }
    r := CopyStr(user, src, dest, at, len, stop.value);
    ScanGivesUp(user, src, len, stop.value);
    forall s: seq<Byte>
      ensures Scan(user, src, len, stop.value) == Ok(s) <==>
                IsString(user, src, s) && |s| < len && |s| < stop.value
    {
      ScanFinds(user, src, len, stop.value, s);
    }
  }

  // copystr, reading user memory.
  method CopyStr(user: Memory, src: nat, dest: array<Byte>, at: nat, maxlen: nat, stoplen: nat) returns (r: Result<nat>)
    requires at + maxlen <= dest.Length
    modifies dest
    ensures forall i | 0 <= i < dest.Length && !(at <= i < at + maxlen) :: dest[i] == old(dest[i])
    ensures match Scan(user, src, maxlen, stoplen)
            case Ok(s) => r == Ok(|s| + 1) && |s| < maxlen && dest[at..at + |s| + 1] == s + [0]
            case Err(e) => r == Err(e)
  {
    var i := 0;
    ghost var s: seq<Byte> := [];
    EmptyPrefix(Scan(user, src, maxlen, stoplen));
    while i < maxlen && i < stoplen
      invariant 0 <= i <= maxlen && i <= stoplen && |s| == i
      invariant forall k | 0 <= k < dest.Length && !(at <= k < at + maxlen) :: dest[k] == old(dest[k])
      invariant forall k | 0 <= k < i :: dest[at + k] == s[k]
      invariant Scan(user, src, maxlen, stoplen) == Prefixed(s, Scan(user, src + i, maxlen - i, stoplen - i))
    {
      if src + i !in user {
        return Err(EFAULT);
      }
      dest[at + i] := user[src + i];
      if user[src + i] == 0 {
        assert Scan(user, src, maxlen, stoplen) == Ok(s + []) && s + [] == s;
        assert dest[at..at + i + 1] == s + [0];
        return Ok(i + 1);
      }
      PrefixStep(s, user[src + i], Scan(user, src + i + 1, maxlen - i - 1, stoplen - i - 1));
      s := s + [user[src + i]];
      i := i + 1;
    }
    if stoplen < maxlen {
      return Err(EFAULT);
    }
    return Err(ENAMETOOLONG);
  }

  function Prefixed(s: seq<Byte>, r: Result<seq<Byte>>): Result<seq<Byte>> {
    match r
    case Ok(t) => Ok(s + t)
    case Err(e) => Err(e)
  }

  lemma EmptyPrefix(r: Result<seq<Byte>>)
    ensures Prefixed([], r) == r
  {
    if r.Ok? {
      assert [] + r.value == r.value;
    }
  }

  lemma PrefixStep(s: seq<Byte>, b: Byte, r: Result<seq<Byte>>)
    ensures Prefixed(s, Prefixed([b], r)) == Prefixed(s + [b], r)
  {
    if r.Ok? {
      assert s + ([b] + r.value) == s + [b] + r.value;
    }
  }

  // ---------------------------------------------------------------- writing user memory

  // The bytes before the first NUL; all of them if there is none.
  function StrLen(s: seq<Byte>): (k: nat)
    ensures k <= |s| && NoNul(s[..k]) && (k < |s| ==> s[k] == 0)
    ensures forall i | 0 <= i < k :: s[i] != 0
  {
    if |s| == 0 || s[0] == 0 then 0 else 1 + StrLen(s[1..])
  }

  lemma Arrived(m: Memory, a: nat, s: seq<Byte>)
    requires NoNul(s) && a + |s| in m && m[a + |s|] == 0 && forall j | a <= j < a + |s| :: j in m && m[j] == s[j - a]
    ensures IsString(m, a, s)
  {}

  class UserSpace {
    var mem: Memory

    // copyout of one pointer.
    method CopyOutWord(w: nat, a: nat) returns (r: Result<()>)
      requires w < WORD_LIMIT && a < WORD_LIMIT
      modifies this
      ensures r.Ok? <==> a + 4 <= USERSPACETOP && Mapped(old(mem), a, 4)
      ensures mem.Keys == old(mem).Keys
      ensures r.Ok? ==> Word(mem, a) == w && Outside(old(mem), mem, a, a + 4)
      ensures r.Err? ==> r.e == EFAULT && mem == old(mem)
    {
      var stop := CopyCheck(a, 4);
      if stop.Err? {
        return Err(EFAULT);
      }
      if stop.value != 4 {
        return Err(EFAULT);
      }
      if a !in mem || a + 1 !in mem || a + 2 !in mem || a + 3 !in mem {
        return Err(EFAULT);
      }
      ComposeBytes(w);
      hide Compose;
      var b0: Byte, b1: Byte, b2: Byte, b3: Byte := w / 0x100_0000, w / 0x1_0000 % 0x100, w / 0x100 % 0x100, w % 0x100;
      mem := mem[a := b0][a + 1 := b1][a + 2 := b2][a + 3 := b3];
      return Ok(());
    }

    /**
     copyoutstr of what starts at src[at], within len bytes, to a. With k the place of the first NUL
     (len if there is none): it succeeds exactly when the NUL is within len, the string ends in user
     space and all of it is mapped; without a NUL it is ENAMETOOLONG if all of len could be written,
     and everything else is EFAULT. Nothing beyond the string changes in user memory.
     */
    method CopyOutStr(src: seq<Byte>, at: nat, a: nat, len: nat) returns (r: Result<nat>)
      requires a < WORD_LIMIT && at + len <= |src| < WORD_LIMIT
      modifies this
      ensures mem.Keys == old(mem).Keys
      ensures var k := StrLen(src[at..at + len]);
              && (r.Ok? <==> Check(a, len).Ok? && k < len && k < Check(a, len).value && Mapped(old(mem), a, k + 1))
              && (r == Err(ENAMETOOLONG) <==>
                    Check(a, len).Ok? && k == len <= Check(a, len).value && Mapped(old(mem), a, len))
              && Outside(old(mem), mem, a, a + k + 1)
              && (r.Ok? ==> r.value == k + 1 && IsString(mem, a, src[at..at + len][..k]))
      ensures r.Err? ==> r.e == EFAULT || r.e == ENAMETOOLONG
    {
      var stop := CopyCheck(a, len);
      if stop.Err? {
        return Err(EFAULT);
      }
      hide StrLen, Check;
      r := CopyStrOut(src[at..at + len], a, stop.value);
    }

    // copystr, writing user memory.
    method CopyStrOut(src: seq<Byte>, a: nat, stoplen: nat) returns (r: Result<nat>)
      modifies this
      ensures mem.Keys == old(mem).Keys && Outside(old(mem), mem, a, a + StrLen(src) + 1)
      ensures r.Ok? <==> StrLen(src) < |src| && StrLen(src) < stoplen && Mapped(old(mem), a, StrLen(src) + 1)
      ensures r == Err(ENAMETOOLONG) <==> StrLen(src) == |src| <= stoplen && Mapped(old(mem), a, |src|)
      ensures r.Ok? ==> r.value == StrLen(src) + 1 && IsString(mem, a, src[..StrLen(src)])
      ensures r.Err? ==> r.e == EFAULT || r.e == ENAMETOOLONG
    {
      ghost var k := StrLen(src);
      hide StrLen;
      var i := 0;
      while i < |src| && i < stoplen
        invariant 0 <= i <= k && mem.Keys == old(mem).Keys && i <= stoplen
        invariant forall j | a <= j < a + i :: j in mem && mem[j] == src[j - a]
        invariant Outside(old(mem), mem, a, a + i)
      {
        if a + i !in mem {
          return Err(EFAULT);
        }
        mem := mem[a + i := src[i]];
        if src[i] == 0 {
          Arrived(mem, a, src[..k]);
          return Ok(i + 1);
        }
        i := i + 1;
      }
      if stoplen < |src| {
        return Err(EFAULT);
      }
      return Err(ENAMETOOLONG);
    }
  }

  // The two memories agree outside [lo, hi).
  predicate Outside(m: Memory, m': Memory, lo: nat, hi: nat) {
    m'.Keys == m.Keys && forall i | i in m && !(lo <= i < hi) :: m'[i] == m[i]
  }
}
