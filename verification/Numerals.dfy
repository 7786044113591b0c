/**
 Numbers as text: the digits printf produces, the fields it pads them into, and
 atoi reading them back.
 */
module Numerals {
  import opened Bits

  const DIGITS: string := "0123456789abcdef"
  const NUMBER_BUF_SIZE := 23
  const ULLONG_LIMIT := 0x1_0000_0000_0000_0000
  const UINT_LIMIT := 0x1_0000_0000

  predicate GoodBase(base: nat) {
    base == 8 || base == 10 || base == 16
  }

  // The numeral of n, most significant digit first.
  function Numeral(n: nat, base: nat): (s: string)
    requires 2 <= base <= 16
    ensures |s| > 0
  {
    if n < base then [DIGITS[n]]
    else
      QuotientPositive(n, base);
      ModBelow(n, base);
      Numeral(n / base, base) + [DIGITS[n % base]]
  }

  function DigitValue(c: char): nat {
    if '0' <= c <= '9' then (c - '0') as nat else if 'a' <= c <= 'f' then (c - 'a') as nat + 10 else 16
  }

  // The value a digit string stands for.
  function Decode(s: string, base: nat): nat {
    if |s| == 0 then 0 else Decode(s[..|s| - 1], base) * base + DigitValue(s[|s| - 1])
  }

  predicate AreDigits(s: string, base: nat) {
    forall i | 0 <= i < |s| :: DigitValue(s[i]) < base
  }

  lemma DigitRoundTrip(d: nat)
    requires d < 16
    ensures DigitValue(DIGITS[d]) == d
  {}

  lemma DecodeSnoc(s: string, c: char, base: nat)
    ensures Decode(s + [c], base) == Decode(s, base) * base + DigitValue(c)
  {
    assert (s + [c])[..|s|] == s;
  }

  // A numeral decodes to its number.
  lemma {:induction false} NumeralDecodes(n: nat, base: nat)
    requires 2 <= base <= 16
    ensures Decode(Numeral(n, base), base) == n
  {
    LastDigit(n, base);
    DigitRoundTrip(n % base);
    var q, d := n / base, n % base;
    hide Numeral, DigitValue;
    if n < base {
      SmallMod(n, base);
      DecodeSnoc("", DIGITS[d], base);
      assert "" + [DIGITS[d]] == [DIGITS[d]];
    } else {
      QuotientPositive(n, base);
      NumeralDecodes(q, base);
      DecodeSnoc(Numeral(q, base), DIGITS[d], base);
      hide Decode;
      DivMod(n, base);
    }
  }

  // Its characters are digits of the base, the first one zero only for zero itself.
  lemma {:induction false} NumeralDigits(n: nat, base: nat)
    requires 2 <= base <= 16
    ensures AreDigits(Numeral(n, base), base)
    ensures Numeral(n, base)[0] == '0' <==> n == 0
  {
    LastDigit(n, base);
    DigitRoundTrip(n % base);
    ModBelow(n, base);
    hide DigitValue;
    if n >= base {
      QuotientPositive(n, base);
      NumeralDigits(n / base, base);
    }
  }

  lemma ModBelow(n: nat, base: nat)
    requires base > 0
    ensures 0 <= n % base < base && (n < base ==> n % base == n)
  {
    if n < base {
      SmallMod(n, base);
    }
  }

  lemma QuotientPositive(n: nat, base: nat)
    requires 2 <= base <= n
    ensures 0 < n / base < n
  {
    DivMod(n, base);
  }

  // A number below base^k has at most k digits.
  lemma {:induction false} NumeralLength(n: nat, base: nat, k: nat)
    requires 2 <= base <= 16 && k > 0 && n < Pow(base, k)
    ensures |Numeral(n, base)| <= k
  {
    LastDigit(n, base);
    PowStep(base, k);
    hide Numeral, Pow;
    if n >= base {
      QuotientPositive(n, base);
      QuotientBelow(n, base, Pow(base, k - 1));
      PowZero(base);
      assert k > 1;
      NumeralLength(n / base, base, k - 1);
    } else {
      SmallMod(n, base);
    }
  }

  lemma PowStep(base: nat, k: nat)
    requires k > 0
    ensures Pow(base, k) == base * Pow(base, k - 1)
  {}

  lemma PowZero(base: nat)
    ensures Pow(base, 0) == 1
  {}

  lemma QuotientBelow(n: nat, base: nat, p: nat)
    requires base > 0 && n < base * p
    ensures n / base < p
  {
    DivMod(n, base);
    MulComm(p, base);
    if n / base >= p {
      MulMono(p, n / base, base);
      assert false;
    }
  }

  // Any long long, in any base printf uses, leaves room for the terminator.
  lemma FitsBuffer(n: nat, base: nat)
    requires n < ULLONG_LIMIT && GoodBase(base)
    ensures |Numeral(n, base)| < NUMBER_BUF_SIZE
  {
    Pow8();
    PowMono(8, base, 22);
    NumeralLength(n, base, 22);
  }

  lemma Pow8()
    ensures Pow(8, 22) >= ULLONG_LIMIT
  {
    PowAdd(8, 11, 11);
    PowAdd(8, 5, 6);
    assert Pow(8, 5) == 32768 && Pow(8, 6) == 262144;
  }

  lemma {:induction false} PowMono(a: nat, b: nat, k: nat)
    requires a <= b
    ensures Pow(a, k) <= Pow(b, k)
  {
    if k > 0 {
      PowMono(a, b, k - 1);
      MulMono(a, b, Pow(a, k - 1));
      MulMono(Pow(a, k - 1), Pow(b, k - 1), b);
    }
  }

  /**
   The digit loop of __pf_printnum: right to left in a buffer that never runs out, leaving the
   numeral of num in front of its terminator.
   */
  method PrintDigits(num: nat, base: nat) returns (buf: array<char>, x: nat)
    requires num < ULLONG_LIMIT && GoodBase(base)
    ensures fresh(buf) && buf.Length == NUMBER_BUF_SIZE && x < NUMBER_BUF_SIZE
    ensures buf[NUMBER_BUF_SIZE - 1] == '\0' && buf[x..NUMBER_BUF_SIZE - 1] == Numeral(num, base)
  {
    hide Numeral;
    FitsBuffer(num, base);
    buf := new char[NUMBER_BUF_SIZE];
    var end := NUMBER_BUF_SIZE - 1;
    buf[end] := '\0';
    x := end;
    var xnum: nat := num;
    ghost var tail: string := [];
    var first := true;
    while first || xnum > 0
      invariant 0 <= x <= end && tail == buf[x..end] && buf[end] == '\0'
      invariant first <==> x == end
      invariant if first then xnum == num else Numeral(num, base) == Head(xnum, base) + tail
      decreases first, xnum
    {
      LastDigit(xnum, base);
      NextDigit(num, xnum, base, tail);
      ghost var d := DIGITS[xnum % base];
      x := x - 1;
      buf[x] := DIGITS[xnum % base];
      assert buf[x..end] == [d] + tail;
      tail := [d] + tail;
      xnum := xnum / base;
      first := false;
    }
    assert [] + tail == tail;
  }

  // The digits not written yet: none once the value has run out.
  function Head(n: nat, base: nat): string
    requires 2 <= base <= 16
  {
    if n == 0 then [] else Numeral(n, base)
  }

  // One more digit moves from the head to the written tail, and there is still room for it.
  lemma NextDigit(num: nat, xnum: nat, base: nat, tail: string)
    requires num < ULLONG_LIMIT && GoodBase(base)
    requires (tail == [] && xnum == num) || (xnum > 0 && Numeral(num, base) == Head(xnum, base) + tail)
    ensures xnum % base < 16 && |tail| + 1 < NUMBER_BUF_SIZE
    ensures Numeral(num, base) == Head(xnum / base, base) + ([DIGITS[xnum % base]] + tail)
  {
    FitsBuffer(num, base);
    LastDigit(xnum, base);
    MoveDigit(Numeral(num, base), xnum, base, xnum / base, [DIGITS[xnum % base]], tail);
  }

  lemma MoveDigit(whole: string, xnum: nat, base: nat, q: nat, d: string, tail: string)
    requires 2 <= base <= 16 && |whole| < NUMBER_BUF_SIZE && |d| == 1
    requires Numeral(xnum, base) == if q == 0 then d else Numeral(q, base) + d
    requires (tail == [] && whole == Numeral(xnum, base)) || (xnum > 0 && whole == Head(xnum, base) + tail)
    ensures |tail| + 1 < NUMBER_BUF_SIZE && whole == Head(q, base) + (d + tail)
  {
    hide Numeral;
    assert whole == Numeral(xnum, base) + tail;
    assert Head(q, base) + d + tail == Head(q, base) + (d + tail);
  }

  lemma LastDigit(n: nat, base: nat)
    requires 2 <= base <= 16
    ensures n % base < 16 && n / base <= n && (n > 0 ==> n / base < n)
    ensures n / base == 0 ==> Numeral(n, base) == [DIGITS[n % base]]
    ensures n / base > 0 ==> Numeral(n, base) == Numeral(n / base, base) + [DIGITS[n % base]]
  {
    DivMod(n, base);
    if n < base {
      SmallMod(n, base);
    } else {
      QuotientPositive(n, base);
    }
  }
}
