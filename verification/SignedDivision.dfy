/**
 __divdi3 and __moddi3: signed division on top of __qdivrem.
 */
module SignedDivision {
  import opened Bits
  import opened LongLong
  import QDivRem

  datatype Signed = DivideTrap | Value(value: int)

  function Abs(a: int): nat {
    if a < 0 then -a else a
  }

  // The quotient rounded toward zero.
  function TruncDiv(a: int, b: int): int
    requires b != 0
  {
    if (a < 0) == (b < 0) then Abs(a) / Abs(b) else -(Abs(a) / Abs(b))
  }

  // The remainder that goes with it.
  function TruncRem(a: int, b: int): int
    requires b != 0
  {
    if a < 0 then -(Abs(a) % Abs(b)) else Abs(a) % Abs(b)
  }

  // Section 6.5.5 of ISO C99: the pair reproduces a, the remainder is smaller than b and
  // takes the sign of a. No other pair does.
  predicate IsC99(a: int, b: int, q: int, r: int) {
    a == q * b + r && Abs(r) < Abs(b) && (r == 0 || (r < 0) == (a < 0))
  }

  lemma TruncIsC99(a: int, b: int, q: int, r: int)
    requires b != 0
    ensures IsC99(a, b, q, r) <==> q == TruncDiv(a, b) && r == TruncRem(a, b)
  {
    if IsC99(a, b, q, r) {
      UniqueTrunc(a, b, q, r, Abs(a), Abs(b));
    }
    TruncSatisfies(a, b);
  }

  lemma TruncSatisfies(a: int, b: int)
    requires b != 0
    ensures IsC99(a, b, TruncDiv(a, b), TruncRem(a, b))
  {
    var m, n := Abs(a), Abs(b);
    DivMod(m, n);
    SignedPair(a, b, m, n, m / n, m % n);
  }

  lemma SignedPair(a: int, b: int, m: int, n: int, q: int, r: int)
    requires m == (if a < 0 then -a else a) && n == (if b < 0 then -b else b)
    requires m == q * n + r && 0 <= r < n
    ensures a == (if (a < 0) == (b < 0) then q else -q) * b + (if a < 0 then -r else r)
  {
    Signs(q, n);
  }

  lemma Signs(x: int, y: int)
    ensures (-x) * y == -(x * y) && x * (-y) == -(x * y) && (-x) * (-y) == x * y
  {}

  lemma UniqueTrunc(a: int, b: int, q: int, r: int, m: int, n: int)
    requires m == (if a < 0 then -a else a) && n == (if b < 0 then -b else b) && n > 0
    requires a == q * b + r && -n < r < n && (r == 0 || (r < 0) == (a < 0))
    ensures q == (if (a < 0) == (b < 0) then m / n else -(m / n))
    ensures r == if a < 0 then -(m % n) else m % n
  {
    Signs(q, b);
    var s, t := if a < 0 then -r else r, if (a < 0) == (b < 0) then q else -q;
    assert m == t * n + s;
    assert 0 <= s < n;
    DivModUnique(m, n, t, s);
  }

  // Negating twice what fits: the magnitude as an unsigned long long.
  lemma Magnitude(h: nat, a: int)
    requires h > 0 && IsLong(h, a)
    ensures (if a < 0 then WrapLong(h, -(WrapLong(h, a) as int)) else WrapLong(h, a)) == Abs(a)
  {
    hide Pow;
    var M := Base(4 * h);
    if a < 0 {
      ModShift(a, M, 1);
      SmallMod(a + M, M);
      ModShift(-a, M, -1);
      assert -(WrapLong(h, a) as int) == -a - M;
      SmallMod(-a, M);
    } else {
      SmallMod(a, M);
    }
  }

  /**
   __divdi3: truncation toward zero. The one pair whose quotient does not fit, the most
   negative number divided by -1, wraps to the most negative number.
   */
  method Divide(h: nat, a: int, b: int) returns (r: Signed)
    requires h > 0 && IsLong(h, a) && IsLong(h, b)
    ensures r.DivideTrap? <==> b == 0
    ensures b != 0 ==> r == Value(ToSigned(h, WrapLong(h, TruncDiv(a, b))))
    ensures b != 0 ==> (r == Value(TruncDiv(a, b)) <==> !(2 * a == -(Base(4 * h) as int) && b == -1))
  {
    hide Pow;
    Magnitude(h, a);
    Magnitude(h, b);
    var ua, ub, neg := WrapLong(h, a), WrapLong(h, b), false;
    if a < 0 {
      ua, neg := WrapLong(h, -(ua as int)), !neg;
    }
    if b < 0 {
      ub, neg := WrapLong(h, -(ub as int)), !neg;
    }
    var o := QDivRem.DivRem(h, ua, ub, false);
    if o.DivideTrap? {
      return DivideTrap;
    }
    var uq := o.quot;
    QuotientFits(h, a, b);
    if neg {
      uq := WrapLong(h, -(uq as int));
    }
    r := Value(ToSigned(h, uq));
  }

  lemma QuotientFits(h: nat, a: int, b: int)
    requires h > 0 && IsLong(h, a) && IsLong(h, b) && b != 0
    ensures 0 <= Abs(a) / Abs(b) < Base(4 * h) && WrapLong(h, Abs(a) / Abs(b)) == Abs(a) / Abs(b)
    ensures ToSigned(h, WrapLong(h, TruncDiv(a, b))) == TruncDiv(a, b)
       <==> !(2 * a == -(Base(4 * h) as int) && b == -1)
  {
    hide Pow;
    var M, m, n := Base(4 * h), Abs(a), Abs(b);
    var q := m / n;
    DivMod(m, n);
    if q < 0 {
      MulMono(q, -1, n);
      assert false;
    }
    MulAtLeast(n, q);
    EvenModulus(h);
    SmallMod(q, M);
    if 2 * a == -(M as int) && b == -1 {
      DivModUnique(m, 1, m, 0);
    } else {
      SmallQuotient(m, n, q, M);
      SignedRoundTrip(h, TruncDiv(a, b));
    }
  }

  lemma EvenModulus(h: nat)
    requires h > 0
    ensures Base(4 * h) >= 2 && Base(4 * h) % 2 == 0
  {
    assert Base(4 * h) == 2 * Base(4 * h - 1);
  }

  lemma SmallQuotient(m: nat, n: nat, q: nat, M: nat)
    requires n > 0 && q * n <= m && 2 * m <= M
    ensures 2 * q <= M
    ensures 2 * q == M && M > 0 ==> n == 1 && 2 * m == M
  {
    MulAtLeast(n, q);
    if n >= 2 && 2 * q == M && M > 0 {
      MulMono(2, n, q);
    }
  }

  /**
   __moddi3: the remainder takes the sign of the dividend. It always fits.
   */
  method Modulo(h: nat, a: int, b: int) returns (r: Signed)
    requires h > 0 && IsLong(h, a) && IsLong(h, b)
    ensures r == if b == 0 then DivideTrap else Value(TruncRem(a, b))
  {
    hide Pow;
    Magnitude(h, a);
    Magnitude(h, b);
    var ua, ub, neg := WrapLong(h, a), WrapLong(h, b), false;
    if a < 0 {
      ua, neg := WrapLong(h, -(ua as int)), true;
    }
    if b < 0 {
      ub := WrapLong(h, -(ub as int));
    }
    var o := QDivRem.DivRem(h, ua, ub, true);
    if o.DivideTrap? {
      return DivideTrap;
    }
    var ur := o.rem.value;
    RemainderFits(h, a, b);
    if neg {
      ur := WrapLong(h, -(ur as int));
    }
    r := Value(ToSigned(h, ur));
  }

  lemma RemainderFits(h: nat, a: int, b: int)
    requires h > 0 && IsLong(h, a) && IsLong(h, b) && b != 0
    ensures WrapLong(h, Abs(a) % Abs(b)) == Abs(a) % Abs(b)
    ensures ToSigned(h, WrapLong(h, TruncRem(a, b))) == TruncRem(a, b)
  {
    hide Pow;
    var M, m, n := Base(4 * h), Abs(a), Abs(b);
    DivMod(m, n);
    SmallMod(m % n, M);
    SignedRoundTrip(h, TruncRem(a, b));
  }
}
