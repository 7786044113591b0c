/**
 atoi, and exactly which %d fields it reads back.
 */
module Atoi {
  import opened Bits
  import opened Numerals

  predicate IsBlank(c: char) {
    c == ' ' || c == '\t'
  }

  predicate IsDigit(c: char) {
    '0' <= c <= '9'
  }

  function SkipBlanks(s: string): string {
    if |s| > 0 && IsBlank(s[0]) then SkipBlanks(s[1..]) else s
  }

  // The longest prefix of decimal digits.
  function DigitPrefix(s: string): string {
    if |s| > 0 && IsDigit(s[0]) then [s[0]] + DigitPrefix(s[1..]) else []
  }

  // A 32-bit pattern as an int.
  function ToInt(x: int): int {
    var u := x % UINT_LIMIT;
    if u < UINT_LIMIT / 2 then u else u - UINT_LIMIT
  }

  // What atoi means: blanks, an optional sign, and the digits that follow, modulo 2^32.
  function AtoiValue(s: string): int {
    var t := SkipBlanks(s);
    if |t| > 0 && t[0] == '-' then ToInt(-(Decode(DigitPrefix(t[1..]), 10) as int))
    else if |t| > 0 && t[0] == '+' then ToInt(Decode(DigitPrefix(t[1..]), 10))
    else ToInt(Decode(DigitPrefix(t), 10))
  }

  method ParseInt(s: string) returns (v: int)
    ensures v == AtoiValue(s)
  {
    var i := 0;
    while i < |s| && IsBlank(s[i])
      invariant 0 <= i <= |s| && SkipBlanks(s) == SkipBlanks(s[i..])
    {
      assert s[i..][1..] == s[i + 1..];
      i := i + 1;
    }
    assert SkipBlanks(s) == s[i..];
    var neg := false;
    var j := i;
    if i < |s| && s[i] == '-' {
      neg := true;
      j := i + 1;
    } else if i < |s| && s[i] == '+' {
      j := i + 1;
    }
    assert i < |s| ==> s[i..][1..] == s[i + 1..];
    var val := DigitsFrom(s, j);
    hide ToInt, Congruent, Decode;
    ToIntMod(Decode(DigitPrefix(s[j..]), 10), val);
    return if neg then ToInt(-val) else ToInt(val);
  }

  // The digit loop, accumulating in an unsigned int.
  method DigitsFrom(s: string, start: nat) returns (val: int)
    requires start <= |s|
    ensures 0 <= val < UINT_LIMIT && Congruent(Decode(DigitPrefix(s[start..]), 10), val)
  {
    val := 0;
    var k := start;
    ghost var done: string := [];
    assert Decode(done, 10) == 0;
    assert done + DigitPrefix(s[start..]) == DigitPrefix(s[start..]);
    hide DigitValue, Decode, Congruent, Shifted, DigitPrefix;
    CongruentSame(0);
    while k < |s| && IsDigit(s[k])
      invariant start <= k <= |s| && 0 <= val < UINT_LIMIT
      invariant DigitPrefix(s[start..]) == done + DigitPrefix(s[k..])
      invariant Congruent(Decode(done, 10), val)
    {
      var digit := (s[k] - '0') as int;
      DigitIs(s[k]);
      PrefixStep(s, k);
      assert done + ([s[k]] + DigitPrefix(s[k + 1..])) == done + [s[k]] + DigitPrefix(s[k + 1..]);
      DecodeSnoc(done, s[k], 10);
      Accumulate(Decode(done, 10), val, digit);
      val := Shifted(val, digit);
      done := done + [s[k]];
      k := k + 1;
    }
    PrefixEnds(s, k);
    assert done + [] == done;
  }

  lemma PrefixStep(s: string, k: nat)
    requires k < |s| && IsDigit(s[k])
    ensures DigitPrefix(s[k..]) == [s[k]] + DigitPrefix(s[k + 1..])
  {
    assert s[k..][1..] == s[k + 1..];
  }

  lemma PrefixEnds(s: string, k: nat)
    requires k <= |s| && (k < |s| ==> !IsDigit(s[k]))
    ensures DigitPrefix(s[k..]) == []
  {}

  lemma DigitIs(c: char)
    requires IsDigit(c)
    ensures DigitValue(c) == (c - '0') as int < 10
  {}

  // Equal as 32-bit patterns.
  predicate Congruent(x: int, y: int) {
    (x - y) % UINT_LIMIT == 0
  }

  // One decimal digit appended, in an unsigned int.
  function Shifted(val: int, digit: int): (r: int)
    ensures 0 <= r < UINT_LIMIT
  {
    (val * 10 + digit) % UINT_LIMIT
  }

  lemma CongruentSame(x: int)
    ensures Congruent(x, x)
  {}

  lemma Accumulate(exact: nat, val: int, digit: int)
    requires Congruent(exact, val)
    ensures Congruent(exact * 10 + digit, Shifted(val, digit))
  {
    var q := (exact - val) / UINT_LIMIT;
    var r := (val * 10 + digit) / UINT_LIMIT;
    assert exact == val + q * UINT_LIMIT;
    assert exact * 10 + digit - Shifted(val, digit) == (10 * q + r) * UINT_LIMIT;
  }

  lemma ToIntMod(x: int, y: int)
    requires Congruent(x, y)
    ensures ToInt(x) == ToInt(y) && ToInt(-x) == ToInt(-y)
  {
    var q := (x - y) / UINT_LIMIT;
    assert x == y + q * UINT_LIMIT;
    ModShift(y, UINT_LIMIT, q);
    ModShift(-y, UINT_LIMIT, -q);
  }

  // ---------------------------------------------------------------- fields

  function Repeat(c: char, n: nat): (s: string)
    ensures |s| == n && forall i | 0 <= i < n :: s[i] == c
  {
    if n == 0 then [] else [c] + Repeat(c, n - 1)
  }

  /**
   A printf field: text in two prefixes and a body, filled up to the width on the right, or on
   the left, with zeros going between the prefixes and the body.
   */
  function Field(prefix: string, prefix2: string, stuff: string, width: nat, right: bool, fill: char): string {
    var len := |prefix| + |prefix2| + |stuff|;
    var pad := Repeat(fill, if width > len then width - len else 0);
    if right then prefix + prefix2 + stuff + pad
    else if fill == '0' then prefix + prefix2 + pad + stuff
    else pad + prefix + prefix2 + stuff
  }

  // A field is as wide as asked, or as its text if that is longer.
  lemma FieldWidth(prefix: string, prefix2: string, stuff: string, width: nat, right: bool, fill: char)
    ensures var len := |prefix| + |prefix2| + |stuff|;
            |Field(prefix, prefix2, stuff, width, right, fill)| == if width > len then width else len
  {}

  function SignOf(v: int): string {
    if v < 0 then "-" else ""
  }

  function Magnitude(v: int): nat {
    if v < 0 then -v else v
  }

  // What %d prints for v in a field.
  function DecimalField(v: int, width: nat, right: bool, fill: char): string {
    Field(SignOf(v), "", Numeral(Magnitude(v), 10), width, right, fill)
  }

  // ---------------------------------------------------------------- reading back

  lemma {:induction false} BlanksSkipped(blanks: string, s: string)
    requires (forall i | 0 <= i < |blanks| :: IsBlank(blanks[i])) && (|s| > 0 ==> !IsBlank(s[0]))
    ensures SkipBlanks(blanks + s) == s
  {
    if |blanks| == 0 {
      assert blanks + s == s;
    } else {
      assert (blanks + s)[1..] == blanks[1..] + s;
      BlanksSkipped(blanks[1..], s);
    }
  }

  lemma {:induction false} PrefixOf(a: string, b: string)
    requires (forall i | 0 <= i < |a| :: IsDigit(a[i])) && (|b| > 0 ==> !IsDigit(b[0]))
    ensures DigitPrefix(a + b) == a
  {
    if |a| == 0 {
      assert a + b == b;
    } else {
      assert (a + b)[1..] == a[1..] + b;
      PrefixOf(a[1..], b);
      assert a == [a[0]] + a[1..];
    }
  }

  lemma {:induction false} DecodeConcat(a: string, b: string)
    ensures Decode(a + b, 10) == Decode(a, 10) * Pow(10, |b|) + Decode(b, 10)
  {
    hide DigitValue;
    if |b| == 0 {
      assert a + b == a;
    } else {
      var n := |b| - 1;
      var c := b[n];
      assert a + b == (a + b[..n]) + [c] && b == b[..n] + [c];
      DecodeSnoc(a + b[..n], c, 10);
      DecodeSnoc(b[..n], c, 10);
      DecodeConcat(a, b[..n]);
      hide Decode;
      assert Pow(10, |b|) == 10 * Pow(10, n);
      Redistribute(Decode(a, 10), Pow(10, n), Decode(b[..n], 10), DigitValue(c));
    }
  }

  lemma Redistribute(x: int, p: int, y: int, d: int)
    ensures (x * p + y) * 10 + d == x * (10 * p) + (y * 10 + d)
  {
    MulAssoc(x, 10, p);
    MulComm(x, 10);
    MulAssoc(10, x, p);
  }

  lemma {:induction false} ZerosDecode(n: nat)
    ensures Decode(Repeat('0', n), 10) == 0
  {
    if n > 0 {
      ZerosDecode(n - 1);
      var s := Repeat('0', n);
      assert s[..n - 1] == Repeat('0', n - 1);
    }
  }

  // A decimal numeral is made of digits atoi knows.
  lemma NumeralIsDigits(n: nat)
    ensures forall i | 0 <= i < |Numeral(n, 10)| :: IsDigit(Numeral(n, 10)[i])
  {
    NumeralDigits(n, 10);
    hide Numeral;
    forall i | 0 <= i < |Numeral(n, 10)|
      ensures IsDigit(Numeral(n, 10)[i])
    {
      assert DigitValue(Numeral(n, 10)[i]) < 10;
    }
  }

  // The four parts atoi sees in a string.
  predicate IsSplit(blanks: string, sign: string, digits: string, rest: string) {
    && (forall i | 0 <= i < |blanks| :: blanks[i] in " \t")
    && (sign == "" || sign == "-" || sign == "+")
    && (forall i | 0 <= i < |digits| :: digits[i] in "0123456789")
    && (|rest| > 0 ==> rest[0] !in "0123456789" && (sign == "" && digits == "" ==> rest[0] !in " \t-+"))
  }

  /**
   atoi of spaces and tabs, a sign, decimal digits and anything after them is the int that equals
   the signed number modulo 2^32; without digits it is zero.
   */
  lemma AtoiReads(blanks: string, sign: string, digits: string, rest: string)
    requires IsSplit(blanks, sign, digits, rest)
    ensures var v := AtoiValue(blanks + sign + digits + rest);
            var exact: int := Decode(digits, 10);
            && -0x8000_0000 <= v < 0x8000_0000
            && (v - (if sign == "-" then -exact else exact)) % 0x1_0000_0000 == 0
  {
    hide Decode, ToInt, SkipBlanks, DigitPrefix;
    SplitParts(blanks, sign, digits, rest);
    SkipsTo(blanks, sign, digits, rest);
    DigitsOf(digits, rest);
    SignChar(sign, digits, rest);
    ToIntIs(Decode(digits, 10));
    ToIntIs(-(Decode(digits, 10) as int));
    hide IsSplit;
  }

  lemma SkipsTo(blanks: string, sign: string, digits: string, rest: string)
    requires IsSplit(blanks, sign, digits, rest)
    ensures SkipBlanks(blanks + (sign + digits + rest)) == sign + digits + rest
  {
    var t := sign + digits + rest;
    assert |t| > 0 ==> t[0] == if |sign| > 0 then sign[0] else if |digits| > 0 then digits[0] else rest[0];
    BlanksSkipped(blanks, t);
  }

  lemma DigitsOf(digits: string, rest: string)
    requires (forall i | 0 <= i < |digits| :: digits[i] in "0123456789") && (|rest| > 0 ==> rest[0] !in "0123456789")
    ensures DigitPrefix(digits + rest) == digits
  {
    hide IsDigit;
    forall i | 0 <= i < |digits|
      ensures IsDigit(digits[i])
    {
      DigitChar(digits[i]);
    }
    if |rest| > 0 {
      DigitChar(rest[0]);
    }
    PrefixOf(digits, rest);
  }

  lemma DigitChar(c: char)
    ensures IsDigit(c) <==> c in "0123456789"
  {}

  lemma SignChar(sign: string, digits: string, rest: string)
    requires IsSplit("", sign, digits, rest)
    ensures var t := sign + digits + rest;
            && (sign == "-" <==> |t| > 0 && t[0] == '-') && (sign == "+" <==> |t| > 0 && t[0] == '+')
            && (sign == "" ==> t == digits + rest)
  {
    var t := sign + digits + rest;
    assert |t| > 0 ==> t[0] == if |sign| > 0 then sign[0] else if |digits| > 0 then digits[0] else rest[0];
  }

  lemma SplitParts(blanks: string, sign: string, digits: string, rest: string)
    ensures blanks + sign + digits + rest == blanks + (sign + digits + rest)
    ensures (sign + digits + rest)[|sign|..] == digits + rest
  {}

  lemma ToIntIs(x: int)
    ensures -0x8000_0000 <= ToInt(x) < 0x8000_0000 && (ToInt(x) - x) % 0x1_0000_0000 == 0
  {}

  // Every string has the four parts.
  lemma AtoiSplits(s: string) returns (blanks: string, sign: string, digits: string, rest: string)
    ensures s == blanks + sign + digits + rest && IsSplit(blanks, sign, digits, rest)
  {
    var i := 0;
    while i < |s| && s[i] in " \t"
      invariant 0 <= i <= |s| && forall j | 0 <= j < i :: s[j] in " \t"
    {
      i := i + 1;
    }
    var j := if i < |s| && s[i] in "-+" then i + 1 else i;
    var k := j;
    while k < |s| && s[k] in "0123456789"
      invariant j <= k <= |s| && forall l | j <= l < k :: s[l] in "0123456789"
    {
      k := k + 1;
    }
    blanks, sign, digits, rest := s[..i], s[i..j], s[j..k], s[k..];
  }

  // Sign and digits, then something that is no digit.
  lemma ReadsSigned(s: string, v: int, digits: string, rest: string)
    requires |digits| > 0 && (forall i | 0 <= i < |digits| :: IsDigit(digits[i])) && (|rest| > 0 ==> !IsDigit(rest[0]))
    requires SkipBlanks(s) == SignOf(v) + digits + rest
    ensures AtoiValue(s) == ToInt(if v < 0 then -(Decode(digits, 10) as int) else Decode(digits, 10))
  {
    hide Decode, ToInt, SkipBlanks;
    PrefixOf(digits, rest);
    hide DigitPrefix;
    var t := SkipBlanks(s);
    assert IsDigit(digits[0]);
    if v < 0 {
      AfterSign(digits, rest);
      assert t == "-" + digits + rest;
    } else {
      NoSign(digits, rest);
      assert t == "" + digits + rest;
    }
  }

  lemma AfterSign(digits: string, rest: string)
    ensures ("-" + digits + rest)[0] == '-' && ("-" + digits + rest)[1..] == digits + rest
  {}

  lemma NoSign(digits: string, rest: string)
    requires |digits| > 0
    ensures "" + digits + rest == digits + rest && ("" + digits + rest)[0] == digits[0]
  {}

  // Blanks before that are skipped.
  lemma Reads(v: int, blanks: nat, digits: string, rest: string)
    requires |digits| > 0 && (forall i | 0 <= i < |digits| :: IsDigit(digits[i])) && (|rest| > 0 ==> !IsDigit(rest[0]))
    ensures AtoiValue(Repeat(' ', blanks) + (SignOf(v) + digits + rest)) ==
            ToInt(if v < 0 then -(Decode(digits, 10) as int) else Decode(digits, 10))
  {
    hide Decode, ToInt, AtoiValue, DigitPrefix;
    var t := SignOf(v) + digits + rest;
    assert t[0] == if v < 0 then '-' else digits[0];
    BlanksSkipped(Repeat(' ', blanks), t);
    hide SkipBlanks, Repeat;
    ReadsSigned(Repeat(' ', blanks) + t, v, digits, rest);
  }

  // The same without blanks.
  lemma ReadsNow(v: int, digits: string, rest: string)
    requires |digits| > 0 && (forall i | 0 <= i < |digits| :: IsDigit(digits[i])) && (|rest| > 0 ==> !IsDigit(rest[0]))
    ensures AtoiValue(SignOf(v) + digits + rest) == ToInt(if v < 0 then -(Decode(digits, 10) as int)
            else Decode(digits, 10))
  {
    hide Decode, ToInt, AtoiValue;
    Reads(v, 0, digits, rest);
    assert Repeat(' ', 0) + (SignOf(v) + digits + rest) == SignOf(v) + digits + rest;
  }

  lemma ToIntSmall(v: int)
    requires -0x8000_0000 <= v < 0x8000_0000
    ensures ToInt(if v < 0 then -(Magnitude(v) as int) else Magnitude(v)) == v
  {}

  lemma SpacesAfter(v: int, n: nat)
    requires -0x8000_0000 <= v < 0x8000_0000
    ensures AtoiValue(SignOf(v) + Numeral(Magnitude(v), 10) + Repeat(' ', n)) == v
  {
    NumeralIsDigits(Magnitude(v));
    NumeralDecodes(Magnitude(v), 10);
    ToIntSmall(v);
    hide Numeral, Decode, AtoiValue, ToInt, Magnitude, SignOf;
    ReadsNow(v, Numeral(Magnitude(v), 10), Repeat(' ', n));
  }

  lemma SpacesBefore(v: int, n: nat)
    requires -0x8000_0000 <= v < 0x8000_0000
    ensures AtoiValue(Repeat(' ', n) + (SignOf(v) + Numeral(Magnitude(v), 10) + [])) == v
  {
    NumeralIsDigits(Magnitude(v));
    NumeralDecodes(Magnitude(v), 10);
    ToIntSmall(v);
    hide Numeral, Decode, AtoiValue, ToInt, Magnitude, SignOf, Repeat;
    Reads(v, n, Numeral(Magnitude(v), 10), []);
  }

  lemma ZerosBefore(v: int, n: nat)
    requires -0x8000_0000 <= v < 0x8000_0000
    ensures AtoiValue(SignOf(v) + (Repeat('0', n) + Numeral(Magnitude(v), 10)) + []) == v
  {
    NumeralIsDigits(Magnitude(v));
    NumeralDecodes(Magnitude(v), 10);
    ToIntSmall(v);
    ZerosDecode(n);
    hide Numeral, Decode, AtoiValue, ToInt, Magnitude, SignOf;
    var digits := Repeat('0', n) + Numeral(Magnitude(v), 10);
    DecodeConcat(Repeat('0', n), Numeral(Magnitude(v), 10));
    ReadsNow(v, digits, []);
  }

  /**
   Every %d field that is not left-aligned with zero fill reads back as the number printed,
   whatever its width.
   */
  lemma ReadsBack(v: int, width: nat, right: bool, fill: char)
    requires -0x8000_0000 <= v < 0x8000_0000 && (fill == ' ' || fill == '0') && !(right && fill == '0')
    ensures AtoiValue(DecimalField(v, width, right, fill)) == v
  {
    hide Numeral, Decode, AtoiValue, ToInt, Repeat;
    var sign, num, n := SignOf(v), Numeral(Magnitude(v), 10), Pad(v, width);
    var f := DecimalField(v, width, right, fill);
    hide SignOf, Magnitude;
    if right {
      SpacesAfter(v, n);
      assert f == sign + num + Repeat(' ', n);
    } else if fill == '0' {
      ZerosBefore(v, n);
      assert f == sign + (Repeat('0', n) + num) + [];
    } else {
      SpacesBefore(v, n);
      assert f == Repeat(' ', n) + (sign + num + []);
    }
  }

  // Left-aligned with zero fill, the zeros become part of the number.
  lemma ReadsShifted(v: int, width: nat)
    ensures var n := Pad(v, width);
            AtoiValue(DecimalField(v, width, true, '0')) == ToInt(if v < 0 then -(Magnitude(v) * Pow(10, n))
              else Magnitude(v) * Pow(10, n))
  {
    var n := Pad(v, width);
    ZerosAfter(v, n);
    hide Numeral, AtoiValue, ToInt, Magnitude, SignOf, Repeat, Pow;
    assert DecimalField(v, width, true, '0') == SignOf(v) + (Numeral(Magnitude(v), 10) + Repeat('0', n)) + [];
  }

  lemma ZerosAfter(v: int, n: nat)
    ensures AtoiValue(SignOf(v) + (Numeral(Magnitude(v), 10) + Repeat('0', n)) + []) ==
            ToInt(if v < 0 then -(Magnitude(v) * Pow(10, n)) else Magnitude(v) * Pow(10, n))
  {
    var num := Numeral(Magnitude(v), 10);
    NumeralIsDigits(Magnitude(v));
    NumeralDecodes(Magnitude(v), 10);
    ZerosDecode(n);
    hide Numeral, Decode, AtoiValue, ToInt, Magnitude, SignOf, Pow, Repeat;
    DecodeConcat(num, Repeat('0', n));
    var digits := num + Repeat('0', n);
    assert forall i | 0 <= i < |digits| :: IsDigit(digits[i]);
    ReadsNow(v, digits, []);
  }

  // How many fill characters the field needs.
  function Pad(v: int, width: nat): nat {
    var len := |SignOf(v)| + |Numeral(Magnitude(v), 10)|;
    if width > len then width - len else 0
  }

  // An odd factor does not help a number become a multiple of a power of two.
  lemma {:induction false} OddFactor(x: int, m: int, e: nat)
    requires m % 2 == 1 && (x * m) % Base(e) == 0
    ensures x % Base(e) == 0
    decreases e
  {
    if e > 0 {
      var b := Base(e - 1);
      DivMod(x * m, Base(e));
      var q := (x * m) / Base(e);
      MulAssoc(q, 2, b);
      MulComm(q, 2);
      MulAssoc(2, q, b);
      EvenProduct(x, m, q * b);
      var y := x / 2;
      MulAssoc(2, y, m);
      assert y * m == q * b;
      ModShift(0, b, q);
      SmallMod(0, b);
      OddFactor(y, m, e - 1);
      DivMod(y, b);
      MulAssoc(2, y / b, b);
      MulComm(2, y / b);
      MulAssoc(y / b, 2, b);
      DivModUnique(x, Base(e), y / b, 0);
    }
  }

  lemma EvenProduct(x: int, m: int, k: int)
    requires m % 2 == 1 && x * m == 2 * k
    ensures x == 2 * (x / 2)
  {
    if x % 2 == 1 {
      var a, b := x / 2, m / 2;
      assert x == 2 * a + 1 && m == 2 * b + 1;
      MulDist(2 * a, 1, m);
      MulDist(2 * b, 1, 2 * a);
      MulAssoc(2, a, m);
      assert false;
    }
  }

  lemma {:induction false} PowTenOdd(k: nat)
    requires k > 0
    ensures (Pow(10, k) - 1) % 2 == 1
  {
    PowStep(10, k);
    hide Pow;
    OddBelowTens(Pow(10, k - 1));
  }

  lemma OddBelowTens(p: int)
    ensures (10 * p - 1) % 2 == 1
  {
    DivModUnique(10 * p - 1, 2, 5 * p - 1, 1);
  }

  // Shifted by zeros, a non-zero int cannot come out the same modulo 2^32.
  lemma ShiftedDiffers(n: nat, k: nat)
    requires 0 < n < UINT_LIMIT && k > 0
    ensures (n * Pow(10, k) - n) % UINT_LIMIT != 0
  {
    var m := Pow(10, k) - 1;
    PowTenOdd(k);
    MulDist(Pow(10, k), -1, n);
    MulComm(n, Pow(10, k));
    MulComm(n, m);
    assert n * m == n * Pow(10, k) - n;
    WordSize();
    if (n * m) % Base(32) == 0 {
      OddFactor(n, m, 32);
      SmallMod(n, Base(32));
      assert false;
    }
  }

  lemma WordSize()
    ensures Base(32) == UINT_LIMIT
  {
    PowAdd(2, 16, 16);
    PowAdd(2, 8, 8);
    assert Base(8) == 256;
  }

  lemma ToIntEqual(x: int, v: int)
    requires -0x8000_0000 <= v < 0x8000_0000 && ToInt(x) == v
    ensures (x - v) % UINT_LIMIT == 0
  {}

  /**
   Which %d fields atoi reads back: all of them except those that are left-aligned, filled with
   zeros, wider than their text and not zero. (Section 7.19.6.1 of ISO C99 has the '-' flag
   override '0', which would leave no exception.)
   */
  lemma ReadsBackIff(v: int, width: nat, right: bool, fill: char)
    requires -0x8000_0000 <= v < 0x8000_0000 && (fill == ' ' || fill == '0')
    ensures AtoiValue(DecimalField(v, width, right, fill)) == v
            <==> !(right && fill == '0' && Pad(v, width) > 0 && v != 0)
  {
    hide Numeral, Decode, AtoiValue, DecimalField, Field, Pad;
    if !(right && fill == '0') {
      ReadsBack(v, width, right, fill);
    } else {
      ReadsShifted(v, width);
      var n, k := Magnitude(v), Pad(v, width);
      if k == 0 || v == 0 {
        assert n * Pow(10, k) == n;
        ToIntSmall(v);
      } else {
        ShiftedDiffers(n, k);
        Negated(n * Pow(10, k), n);
        hide ToInt;
        if AtoiValue(DecimalField(v, width, right, fill)) == v {
          ToIntEqual(if v < 0 then -(n * Pow(10, k)) else n * Pow(10, k), v);
        }
      }
    }
  }

  lemma Negated(x: int, y: int)
    ensures (x - y) % UINT_LIMIT == 0 <==> (-x - (-y)) % UINT_LIMIT == 0
  {}

  // For instance "%-05d" of 42 prints 42000.
  lemma LeftZeroFill()
    ensures AtoiValue(DecimalField(42, 5, true, '0')) != 42
  {
    assert Numeral(42, 10) == "42";
    assert Pad(42, 5) == 3;
    hide AtoiValue, DecimalField, Pad, Numeral;
    ReadsBackIff(42, 5, true, '0');
  }
}
