/**
 Numbers written as digits in base b, most significant digit first, and the
 digit-by-digit shifts of the division code.
 */
module Digits {
  import opened Bits

  function Val(b: nat, s: seq<nat>): nat {
    if |s| == 0 then 0 else Val(b, s[..|s| - 1]) * b + s[|s| - 1]
  }

  predicate AreDigits(b: nat, s: seq<nat>) {
    forall i | 0 <= i < |s| :: s[i] < b
  }

  lemma ValAppend(b: nat, s: seq<nat>, x: nat)
    ensures Val(b, s + [x]) == Val(b, s) * b + x
  {
    assert (s + [x])[..|s|] == s;
  }

  lemma {:induction false} ValConcat(b: nat, s: seq<nat>, t: seq<nat>)
    ensures Val(b, s + t) == Val(b, s) * Pow(b, |t|) + Val(b, t)
  {
    if |t| == 0 {
      assert s + t == s;
    } else {
      var t', x := t[..|t| - 1], t[|t| - 1];
      assert s + t == (s + t') + [x];
      ValConcat(b, s, t');
      ValAppend(b, s + t', x);
      MulDist(Val(b, s) * Pow(b, |t'|), Val(b, t'), b);
      MulAssoc(Val(b, s), Pow(b, |t'|), b);
      MulComm(Pow(b, |t'|), b);
    }
  }

  lemma ValOne(b: nat, x: nat)
    ensures Val(b, [x]) == x
  {
    ValAppend(b, [], x);
    assert [] + [x] == [x];
  }

  lemma ValCons(b: nat, x: nat, s: seq<nat>)
    ensures Val(b, [x] + s) == x * Pow(b, |s|) + Val(b, s)
  {
    ValConcat(b, [x], s);
    ValOne(b, x);
  }

  lemma {:induction false} ValBound(b: nat, s: seq<nat>)
    requires AreDigits(b, s)
    ensures Val(b, s) < Pow(b, |s|)
  {
    if |s| != 0 {
      var s', x := s[..|s| - 1], s[|s| - 1];
      ValBound(b, s');
      MulMono(Val(b, s') + 1, Pow(b, |s'|), b);
      MulDist(Val(b, s'), 1, b);
      MulComm(b, Pow(b, |s'|));
    }
  }

  lemma {:induction false} ValZeros(b: nat, s: seq<nat>)
    requires forall i | 0 <= i < |s| :: s[i] == 0
    ensures Val(b, s) == 0
  {
    if |s| != 0 {
      ValZeros(b, s[..|s| - 1]);
    }
  }

  // Leading zeros do not count.
  lemma ValSkipZeros(b: nat, s: seq<nat>, k: nat)
    requires k <= |s|
    requires forall i | 0 <= i < k :: s[i] == 0
    ensures Val(b, s) == Val(b, s[k..])
  {
    assert s == s[..k] + s[k..];
    ValConcat(b, s[..k], s[k..]);
    ValZeros(b, s[..k]);
  }

  // A number with a nonzero leading digit is at least b^(length - 1).
  lemma ValAtLeast(b: nat, s: seq<nat>)
    requires |s| > 0 && s[0] > 0
    ensures Val(b, s) >= Pow(b, |s| - 1)
  {
    assert s == [s[0]] + s[1..];
    ValCons(b, s[0], s[1..]);
    MulAtLeast(s[0], Pow(b, |s| - 1));
  }

  // Two numbers that agree below their first digit compare as their first digits do.
  lemma LeadingDigitBound(b: nat, s: seq<nat>, t: seq<nat>)
    requires |s| == |t| > 0 && AreDigits(b, s) && AreDigits(b, t)
    requires Val(b, s) < Val(b, t)
    ensures s[0] <= t[0]
  {
    var p := Pow(b, |s| - 1);
    assert s == [s[0]] + s[1..] && t == [t[0]] + t[1..];
    ValCons(b, s[0], s[1..]);
    ValCons(b, t[0], t[1..]);
    ValBound(b, t[1..]);
    if t[0] < s[0] {
      MulMono(t[0] + 1, s[0], p);
      MulDist(t[0], 1, p);
    }
  }

  // The digit that a left shift by sh leaves in place, and the bits it pushes up.
  function ShlLow(h: nat, x: nat, sh: nat): nat
  {
    (x * Base(sh)) % Base(h)
  }

  function ShlHigh(h: nat, x: nat, sh: nat): nat
    requires sh <= h
  {
    x / Base(h - sh)
  }

  lemma ShlDigit(h: nat, x: nat, sh: nat)
    requires sh <= h && x < Base(h)
    ensures x * Base(sh) == ShlHigh(h, x, sh) * Base(h) + ShlLow(h, x, sh)
    ensures ShlHigh(h, x, sh) < Base(sh)
    ensures ShlLow(h, x, sh) == (x % Base(h - sh)) * Base(sh)
    ensures ShlLow(h, x, sh) + Base(sh) <= Base(h)
  {
    var c, s := Base(h - sh), Base(sh);
    var q, r := x / c, x % c;
    PowAdd(2, h - sh, sh);
    assert Base(h) == c * s;
    DivMod(x, c);
    MulDist(q * c, r, s);
    MulAssoc(q, c, s);
    assert x * s == q * Base(h) + r * s;
    MulMono(r + 1, c, s);
    MulDist(r, 1, s);
    MulPos(r, s);
    DivModUnique(x * s, Base(h), q, r * s);
    if q >= s {
      MulMono(s, q, c);
      MulComm(s, c);
      assert false;
    }
  }

  // What shl leaves in digits s[0..]: each digit shifted, plus the bits from the right.
  function Shl(h: nat, s: seq<nat>, sh: nat): (r: seq<nat>)
    requires sh <= h
    ensures |r| == |s|
  {
    if |s| == 0 then []
    else [ShlLow(h, s[0], sh) + (if |s| > 1 then ShlHigh(h, s[1], sh) else 0)] + Shl(h, s[1..], sh)
  }

  lemma {:induction false} ShlAt(h: nat, s: seq<nat>, sh: nat, i: nat)
    requires sh <= h && i < |s|
    ensures Shl(h, s, sh)[i] == ShlLow(h, s[i], sh) + (if i + 1 < |s| then ShlHigh(h, s[i + 1], sh) else 0)
  {
    if i > 0 {
      ShlAt(h, s[1..], sh, i - 1);
    }
  }

  // Shifting digits multiplies the number; the bits pushed off the left are those of s[0].
  lemma {:induction false} ShlValue(h: nat, s: seq<nat>, sh: nat)
    requires sh <= h && |s| > 0 && AreDigits(Base(h), s)
    ensures AreDigits(Base(h), Shl(h, s, sh))
    ensures Val(Base(h), s) * Base(sh)
         == ShlHigh(h, s[0], sh) * Pow(Base(h), |s|) + Val(Base(h), Shl(h, s, sh))
  {
    var B, m, x, t := Base(h), Base(sh), s[0], s[1..];
    var hi, lo := ShlHigh(h, x, sh), ShlLow(h, x, sh);
    ShlDigit(h, x, sh);
    assert s == [x] + t;
    ValCons(B, x, t);
    var p := Pow(B, |t|);
    MulDist(x * p, Val(B, t), m);
    assert (x * p) * m == (x * m) * p by {
      MulAssoc(x, p, m);
      MulComm(p, m);
      MulAssoc(x, m, p);
    }
    MulDist(hi * B, lo, p);
    MulAssoc(hi, B, p);
    if |t| == 0 {
      assert Shl(h, s, sh) == [lo];
      ValOne(B, lo);
      assert Val(B, t) == 0 && p == 1;
    } else {
      ShlDigit(h, t[0], sh);
      ShlValue(h, t, sh);
      var up := ShlHigh(h, t[0], sh);
      ValCons(B, lo + up, Shl(h, t, sh));
      MulDist(lo, up, p);
      assert Shl(h, s, sh) == [lo + up] + Shl(h, t, sh);
    }
  }

  // What the unshift at the end leaves: each digit moved down, taking bits from its left.
  function Shr(h: nat, s: seq<nat>, d: nat): (r: seq<nat>)
    requires d <= h
    ensures |r| == |s|
  {
    if |s| == 0 then []
    else
      var i := |s| - 1;
      Shr(h, s[..i], d) + [ShiftRight(s[i], d) + (if i > 0 then ShlLow(h, s[i - 1], h - d) else 0)]
  }

  lemma {:induction false} ShrAt(h: nat, s: seq<nat>, d: nat, i: nat)
    requires d <= h && i < |s|
    ensures Shr(h, s, d)[i] == ShiftRight(s[i], d) + (if i > 0 then ShlLow(h, s[i - 1], h - d) else 0)
  {
    if i < |s| - 1 {
      ShrAt(h, s[..|s| - 1], d, i);
    }
  }

  // Unshifting divides: only the low d bits of the last digit are lost.
  lemma {:induction false} ShrValue(h: nat, s: seq<nat>, d: nat)
    requires d <= h && |s| > 0 && AreDigits(Base(h), s)
    ensures Val(Base(h), s) == Val(Base(h), Shr(h, s, d)) * Base(d) + s[|s| - 1] % Base(d)
  {
    var B, i := Base(h), |s| - 1;
    var y, t := s[i], s[..i];
    if i == 0 {
      assert s == [y] && Shr(h, s, d) == [ShiftRight(y, d)];
      ValOne(B, y);
      ValOne(B, ShiftRight(y, d));
      DivMod(y, Base(d));
    } else {
      ShrValue(h, t, d);
      ShrDigit(h, Val(B, Shr(h, t, d)), t[i - 1], y, d);
      ValAppend(B, Shr(h, t, d), ShiftRight(y, d) + ShlLow(h, t[i - 1], h - d));
    }
  }

  // One digit of the unshift: z is the digit to the left of y.
  lemma ShrDigit(h: nat, v: nat, z: nat, y: nat, d: nat)
    requires d <= h && z < Base(h)
    ensures (v * Base(d) + z % Base(d)) * Base(h) + y
         == (v * Base(h) + (ShiftRight(y, d) + ShlLow(h, z, h - d))) * Base(d) + y % Base(d)
  {
    var m, k := Base(d), Base(h - d);
    assert Base(h) == k * m by {
      PowAdd(2, h - d, d);
    }
    assert ShlLow(h, z, h - d) == (z % m) * k by {
      ShlDigit(h, z, h - d);
      assert h - (h - d) == d;
    }
    ShrStep(v, m, k, Base(h), z % m, ShlLow(h, z, h - d), y);
  }

  lemma ShrStep(v: nat, m: nat, k: nat, B: nat, low: nat, up: nat, y: nat)
    requires m > 0 && B == k * m && up == low * k
    ensures (v * m + low) * B + y == (v * B + (y / m + up)) * m + y % m
  {
    DivMod(y, m);
    MulDist(v * m, low, B);
    MulDist(v * B, y / m + up, m);
    MulDist(y / m, up, m);
    MulAssoc(low, k, m);
    assert v * m * B == v * B * m by {
      MulAssoc(v, m, B);
      MulComm(m, B);
      MulAssoc(v, B, m);
    }
  }
}
