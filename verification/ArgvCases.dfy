/**
 Argument lists that exec does not handle as one would expect, with the user memory
 that holds them.
 */
module ArgvCases {
  import opened HeapMemory
  import opened CopyInOut
  import opened Argv

  // ---------------------------------------------------------------- memory for a list

  // Byte j of the word w, most significant first.
  function WordByte(w: nat, j: nat): Byte
    requires w < WORD_LIMIT
  {
    if j == 0 then w / 0x100_0000 else if j == 1 then w / 0x1_0000 % 0x100 else if j == 2 then w / 0x100 % 0x100
      else w % 0x100
  }

  // Where the i-th pointer points when the strings start at strings; NULL after the last.
  function Pointer(args: Args, strings: nat, i: nat): nat
    requires i <= |args|
  {
    if i < |args| then strings + Offset(args, i) else 0
  }

  // The pointers from base on, the strings right after them.
  function ImageByte(args: Args, base: nat, a: nat): Byte
    requires base <= a < base + 4 * (|args| + 1) + |Pack(args)| && base + 4 * (|args| + 1) + |Pack(args)| < WORD_LIMIT
  {
    var strings := base + 4 * (|args| + 1);
    if a >= strings then Pack(args)[a - strings]
    else
      var i := (a - base) / 4;
      PointerBound(args, strings, i);
      WordByte(Pointer(args, strings, i), (a - base) % 4)
  }

  lemma PointerBound(args: Args, strings: nat, i: nat)
    requires i <= |args|
    ensures Pointer(args, strings, i) <= strings + |Pack(args)|
  {
    hide Pack;
    if i < |args| {
      OffsetEnd(args, i);
    }
  }

  function Image(args: Args, base: nat): Memory
    requires base + 4 * (|args| + 1) + |Pack(args)| < WORD_LIMIT
  {
    map a: nat | base <= a < base + 4 * (|args| + 1) + |Pack(args)| :: ImageByte(args, base, a)
  }

  lemma PointerByte(args: Args, base: nat, i: nat, j: nat)
    requires base + 4 * (|args| + 1) + |Pack(args)| < WORD_LIMIT && i <= |args| && j < 4
    ensures Pointer(args, base + 4 * (|args| + 1), i) < WORD_LIMIT
    ensures base + 4 * i + j in Image(args, base)
    ensures Image(args, base)[base + 4 * i + j] == WordByte(Pointer(args, base + 4 * (|args| + 1), i), j)
  {
    hide Pack, Pointer, WordByte;
    PointerBound(args, base + 4 * (|args| + 1), i);
    assert (4 * i + j) / 4 == i && (4 * i + j) % 4 == j;
  }

  lemma WordFrom(m: Memory, a: nat, w: nat)
    requires w < WORD_LIMIT && a in m && a + 1 in m && a + 2 in m && a + 3 in m
    requires m[a] == WordByte(w, 0) && m[a + 1] == WordByte(w, 1) && m[a + 2] == WordByte(w, 2)
             && m[a + 3] == WordByte(w, 3)
    ensures Mapped(m, a, 4) && Word(m, a) == w
  {
    hide Compose;
    ComposeBytes(w);
  }

  lemma PointerAt(args: Args, base: nat, i: nat)
    requires base + 4 * (|args| + 1) + |Pack(args)| < WORD_LIMIT && i <= |args|
    ensures Mapped(Image(args, base), base + 4 * i, 4)
    ensures Word(Image(args, base), base + 4 * i) == Pointer(args, base + 4 * (|args| + 1), i)
  {
    hide Pack, Pointer, Image, WordByte, Word, Mapped, ImageByte;
    PointerByte(args, base, i, 0);
    PointerByte(args, base, i, 1);
    PointerByte(args, base, i, 2);
    PointerByte(args, base, i, 3);
    WordFrom(Image(args, base), base + 4 * i, Pointer(args, base + 4 * (|args| + 1), i));
  }

  lemma StringByte(args: Args, base: nat, k: nat)
    requires base + 4 * (|args| + 1) + |Pack(args)| < WORD_LIMIT && k < |Pack(args)|
    ensures base + 4 * (|args| + 1) + k in Image(args, base)
            && Image(args, base)[base + 4 * (|args| + 1) + k] == Pack(args)[k]
  {
    hide Pack, Pointer, WordByte;
  }

  lemma StringAt(args: Args, base: nat, i: nat)
    requires base + 4 * (|args| + 1) + |Pack(args)| < WORD_LIMIT && i < |args| && NoNul(args[i])
    ensures IsString(Image(args, base), base + 4 * (|args| + 1) + Offset(args, i), args[i])
  {
    hide *;
    var p := base + 4 * (|args| + 1) + Offset(args, i);
    forall j: nat | j <= |args[i]|
      ensures ByteIs(Image(args, base), p, args[i], j)
    {
      SpelledByte(args, base, i, j);
    }
    Spelled(Image(args, base), p, args[i]);
  }

  // Byte j of the string s and its NUL is at p + j.
  predicate ByteIs(m: Memory, p: nat, s: seq<Byte>, j: nat)
    requires j <= |s|
  {
    p + j in m && m[p + j] == (s + [0])[j]
  }

  lemma SpelledByte(args: Args, base: nat, i: nat, j: nat)
    requires base + 4 * (|args| + 1) + |Pack(args)| < WORD_LIMIT && i < |args| && j <= |args[i]|
    ensures ByteIs(Image(args, base), base + 4 * (|args| + 1) + Offset(args, i), args[i], j)
  {
    hide Pack, Image, Offset;
    PackAt(args, i);
    var o, s, packed := Offset(args, i), args[i], Pack(args);
    assert packed[o..o + |s| + 1][j] == packed[o + j];
    StringByte(args, base, o + j);
  }

  lemma Spelled(m: Memory, p: nat, s: seq<Byte>)
    requires NoNul(s) && forall j: nat | j <= |s| :: ByteIs(m, p, s, j)
    ensures IsString(m, p, s)
  {
    forall a: nat | p <= a < p + |s| + 1
      ensures a in m
    {
      assert ByteIs(m, p, s, a - p);
    }
    forall i | 0 <= i < |s|
      ensures m[p + i] == s[i]
    {
      assert ByteIs(m, p, s, i);
    }
    assert ByteIs(m, p, s, |s|);
  }

  lemma ArgReady(args: Args, base: nat, i: nat)
    requires 0 < base && base + 4 * (|args| + 1) + |Pack(args)| <= USERSPACETOP && i < |args| && NoNul(args[i])
    ensures Good(Image(args, base), base, args, i)
  {
    hide IsString, Word, Pack, Image, Offset, Mapped, ImageByte;
    PointerAt(args, base, i);
    StringAt(args, base, i);
    PackAt(args, i);
  }

  lemma PointersFirst(args: Args, base: nat)
    requires base + 4 * (|args| + 1) + |Pack(args)| < WORD_LIMIT
    ensures Mapped(Image(args, base), base, 4 * (|args| + 1))
    ensures Mapped(Image(args, base), base + 4 * |args|, 4) && Word(Image(args, base), base + 4 * |args|) == 0
  {
    hide Pack, ImageByte, Word;
    PointerAt(args, base, |args|);
  }

  // Any list of strings that fits user space is the argv of some program.
  lemma SomeArgv(args: Args, base: nat)
    requires 0 < base && base + 4 * (|args| + 1) + |Pack(args)| <= USERSPACETOP && forall i | 0 <= i < |args| ::
             NoNul(args[i])
    ensures InUser(Image(args, base), base, args)
  {
    var m := Image(args, base);
    hide IsString, Word, Pack, Image, Mapped, Good, InUser, Pointer;
    PointersFirst(args, base);
    forall i | 0 <= i < |args|
      ensures Good(m, base, args, i)
    {
      ArgReady(args, base, i);
    }
    AllGood(m, base, args);
  }

  // The i-th pointer and its string are there and in user space.
  predicate Good(m: Memory, base: nat, args: Args, i: nat)
    requires i < |args|
  {
    PointsTo(m, base + 4 * i, args[i]) && Word(m, base + 4 * i) + |args[i]| + 1 <= USERSPACETOP
  }

  lemma AllGood(m: Memory, base: nat, args: Args)
    requires Mapped(m, base, 4 * (|args| + 1)) && base + 4 * (|args| + 1) <= USERSPACETOP
    requires Mapped(m, base + 4 * |args|, 4) && Word(m, base + 4 * |args|) == 0
    requires forall i | 0 <= i < |args| :: Good(m, base, args, i)
    ensures InUser(m, base, args)
  {
    hide Word, IsString;
    forall i | 0 <= i < |args|
      ensures PointsTo(m, base + 4 * i, args[i]) && Word(m, base + 4 * i) + |args[i]| + 1 <= USERSPACETOP
    {
      assert Good(m, base, args, i);
    }
  }

  // ---------------------------------------------------------------- an exactly filled buffer

  /**
   For instance a first argument of 4095 characters and a second one: far below ARG_MAX, wholly in
   user space, and refused with EFAULT whatever memory there is for the large buffer.
   */
  lemma ExactFill() returns (m: Memory, base: nat, args: Args)
    ensures InUser(m, base, args) && |Pack(args)| == 4098
    ensures FillsExactly(args, PAGE_SIZE) && forall bigOk: bool :: Outcome(args, true, bigOk) == Err(EFAULT)
  {
    var first: seq<Byte>, second: seq<Byte> := seq(PAGE_SIZE - 1, i => 1), [1];
    args := [first] + [second];
    PackSnoc([], first);
    PackSnoc([first], second);
    assert [] + [first] == [first] && args[..1] == [first];
    assert Offset(args, 1) == PAGE_SIZE;
    hide Pack, InUser;
    base := 0x1000;
    m := Image(args, base);
    SomeArgv(args, base);
  }

  // ---------------------------------------------------------------- more arguments than stack

  const DUMBVM_STACKPAGES := 18

  // A stack of size bytes at the top of user space, with nothing mapped right below it.
  predicate StackOf(m: Memory, size: nat) {
    4 <= size < USERSPACETOP && Mapped(m, USERSPACETOP - size, size) && USERSPACETOP - size - 1 !in m
  }

  // The strings, rounded up to whole words, and the pointers have to fit the stack.
  lemma RoomOnStack(m: Memory, size: nat, len: nat, n: nat)
    requires StackOf(m, size) && len <= ARG_MAX && n <= len
    ensures StackRoom(m, USERSPACETOP, len, n) <==> (len + 3) / 4 * 4 + 4 * (n + 1) <= size
  {
    var words := (len + 3) / 4 * 4;
    var strings := USERSPACETOP - len - (USERSPACETOP - len) % 4;
    assert strings == USERSPACETOP - words;
    assert words + 4 * (n + 1) > size ==> strings - 4 * (n + 1) <= USERSPACETOP - size - 1 < strings + len;
  }

  /**
   ARG_MAX bytes of arguments do not always fit dumbvm's stack, which counts only the strings: one
   argument of one character and 12000 of two are taken in, and there is no room for their pointers.
   */
  lemma TooManyArguments(stack: Memory) returns (m: Memory, base: nat, args: Args)
    requires StackOf(stack, DUMBVM_STACKPAGES * PAGE_SIZE)
    ensures InUser(m, base, args) && |args| == 12001 && |Pack(args)| == 36002
    ensures Outcome(args, true, true) == Ok(()) && !StackRoom(stack, USERSPACETOP, |Pack(args)|, |args|)
  {
    hide Many, Pack, InUser;
    args := Many(12000);
    ManyPacked(12000);
    NeverExact(12000);
    RoomOnStack(stack, DUMBVM_STACKPAGES * PAGE_SIZE, |Pack(args)|, |args|);
    base := 0x1000;
    m := Image(args, base);
    SomeArgv(args, base);
  }

  function Many(k: nat): (args: Args)
    ensures |args| == k + 1 && forall i | 0 <= i < |args| :: NoNul(args[i])
  {
    if k == 0 then [[1]] else Many(k - 1) + [[1, 1]]
  }

  lemma ManyNext(k: nat)
    requires k > 0
    ensures Many(k) == Many(k - 1) + [[1, 1]]
  {}

  lemma {:induction false} ManyPacked(k: nat)
    ensures |Pack(Many(k))| == 2 + 3 * k
  {
    if k == 0 {
      PackSnoc([], [1]);
      assert [] + [[1]] == Many(0);
    } else {
      ManyPacked(k - 1);
      ManyNext(k);
      hide Many, Pack;
      PackSnoc(Many(k - 1), [1, 1]);
    }
  }

  lemma {:induction false} ManyPrefix(k: nat, i: nat)
    requires i < k
    ensures Many(k)[..i + 1] == Many(i)
  {
    if i < k - 1 {
      ManyPrefix(k - 1, i);
    }
    assert Many(k)[..i + 1] == Many(k - 1)[..i + 1];
  }

  // After one character and its NUL, three bytes at a time never come to a whole page.
  lemma NeverExact(k: nat)
    ensures !FillsExactly(Many(k), PAGE_SIZE)
  {
    hide Many, Pack;
    forall i: nat | i < |Many(k)|
      ensures Offset(Many(k), i) != PAGE_SIZE
    {
      if i == 0 {
        NonePlaced(map[], 0, 0, Many(k));
      } else {
        ManyPrefix(k, i - 1);
        ManyPacked(i - 1);
      }
    }
  }
}
