/**
 __qdivrem: 64-bit unsigned division with remainder.
 */
module QDivRem {
  import opened Basics
  import opened Bits
  import opened Digits
  import opened Division

  // The remainder is produced only when the caller passes somewhere to put it.
  datatype Outcome =
    | DivideTrap
    | Quotient(quot: nat, rem: Option<nat>)

  // ---------------------------------------------------------------- words and digits

  // A long long is two unsigned ints, and each of those is two digits.
  function FromHalves(h: nat, d1: nat, d2: nat, d3: nat, d4: nat): nat {
    Combine(h, d1, d2) * Base(2 * h) + Combine(h, d3, d4)
  }

  lemma FromHalvesIsVal(h: nat, s: seq<nat>)
    requires |s| == 4 && AreDigits(Base(h), s)
    ensures FromHalves(h, s[0], s[1], s[2], s[3]) == Val(Base(h), s)
  {
    hide Combine, Val, Pow, AreDigits;
    var B := Base(h);
    assert s[0] < B && s[1] < B && s[2] < B && s[3] < B by {
      assert AreDigits(B, s);
      DigitsAt(B, s);
    }
    CombineIsTwoDigits(h, s[0], s[1]);
    CombineIsTwoDigits(h, s[2], s[3]);
    WordIsTwoHalves(h);
    ValOfFour(B, s);
  }

  lemma DigitsAt(b: nat, s: seq<nat>)
    requires |s| == 4 && AreDigits(b, s)
    ensures s[0] < b && s[1] < b && s[2] < b && s[3] < b
  {}

  lemma ValOfFour(B: nat, s: seq<nat>)
    requires |s| == 4
    ensures Val(B, s) == (s[0] * B + s[1]) * (B * B) + (s[2] * B + s[3])
  {
    assert s == s[..2] + s[2..];
    ValConcat(B, s[..2], s[2..]);
    assert s[..2] == [s[0]] + [s[1]] && s[2..] == [s[2]] + [s[3]];
    ValAppend(B, [s[0]], s[1]);
    ValAppend(B, [s[2]], s[3]);
    ValOne(B, s[0]);
    ValOne(B, s[2]);
    assert Pow(B, 2) == B * (B * Pow(B, 0));
  }

  // Splitting a long long into digits with the header's macros.
  method LoadDigits(h: nat, x: nat) returns (a: array<nat>)
    requires x < Base(4 * h)
    ensures fresh(a) && a.Length == 5 && a[0] == 0
    ensures AreDigits(Base(h), a[..]) && Val(Base(h), a[1..]) == x
  {
    hide Val, Pow;
    var hi, lo := x / Base(2 * h), x % Base(2 * h);
    SplitIsVal(h, x, hi, lo);
    a := new nat[5];
    a[0] := 0;
    a[1] := HHalf(h, hi);
    a[2] := LHalf(h, hi);
    a[3] := HHalf(h, lo);
    a[4] := LHalf(h, lo);
    assert a[1..] == [HHalf(h, hi), LHalf(h, hi), HHalf(h, lo), LHalf(h, lo)];
    assert forall i | 0 <= i < 5 :: a[..][i] < Base(h);
  }

  lemma SplitIsVal(h: nat, x: nat, hi: nat, lo: nat)
    requires x < Base(4 * h) && hi == x / Base(2 * h) && lo == x % Base(2 * h)
    ensures HHalf(h, hi) < Base(h) && LHalf(h, hi) < Base(h) && HHalf(h, lo) < Base(h) && LHalf(h, lo) < Base(h)
    ensures Val(Base(h), [HHalf(h, hi), LHalf(h, hi), HHalf(h, lo), LHalf(h, lo)]) == x
  {
    hide Val, Pow, BitAnd;
    var B := Base(h);
    WordIsTwoHalves(h);
    WordIsTwoHalves(2 * h);
    HalfBound(Base(2 * h), x);
    assert hi < B * B && lo < B * B;
    HalfBound(B, hi);
    HalfBound(B, lo);
    LHalfIsMod(h, hi);
    LHalfIsMod(h, lo);
    DivMod(hi, B);
    DivMod(lo, B);
    DivMod(x, B * B);
    ValOfFour(B, [HHalf(h, hi), LHalf(h, hi), HHalf(h, lo), LHalf(h, lo)]);
  }

  // ---------------------------------------------------------------- one-digit divisors

  // One digit of short division.
  lemma ShortStep(B: nat, t: nat, r: nat, x: nat)
    requires 0 < t && r < t && x < B
    ensures 0 <= (r * B + x) / t < B && 0 <= (r * B + x) % t < t
  {
    var n := r * B + x;
    DivMod(n, t);
    MulPos(r, B);
    if n / t >= B {
      MulMono(B, n / t, t);
      MulMono(r + 1, t, B);
      MulDist(r, 1, B);
      MulComm(t, B);
      assert false;
    } else if n / t < 0 {
      MulMono(n / t, -1, t);
      assert false;
    }
  }

  lemma ShortAdd(B: nat, t: nat, v: nat, q: nat, r: nat, x: nat, n: nat)
    requires 0 < t && v == q * t + r && n == r * B + x
    ensures v * B + x == (q * B + n / t) * t + n % t
  {
    DivMod(n, t);
    MulDist(q * t, r, B);
    MulDist(q * B, n / t, t);
    assert q * t * B == q * B * t by {
      MulAssoc(q, t, B);
      MulComm(t, B);
      MulAssoc(q, B, t);
    }
  }

  // One digit, as the code computes it: the cast to digit drops nothing.
  method ShortDigit(h: nat, t: nat, r: nat, x: nat, ghost v: nat, ghost q0: nat) returns (q: nat, r': nat)
    requires 0 < t < Base(h) && r < t && x < Base(h) && v == q0 * t + r
    ensures q < Base(h) && r' < t
    ensures TwoDigits(Base(h), v, x) == TwoDigits(Base(h), q0, q) * t + r'
  {
    hide Combine, Pow, BitAnd;
    CombineIsTwoDigits(h, r, x);
    ShortStep(Base(h), t, r, x);
    var rbj := Combine(h, r, x);
    LHalfIsMod(h, rbj / t);
    SmallMod(rbj / t, Base(h));
    ShortAdd(Base(h), t, v, q0, r, x, rbj);
    q := LHalf(h, rbj / t);
    r' := rbj % t;
  }

  // The unrolled short division used when the divisor has one digit.
  method ShortDivide(h: nat, u: array<nat>, t: nat) returns (q: nat, r: nat)
    requires u.Length == 5 && AreDigits(Base(h), u[..]) && 0 < t < Base(h)
    ensures Val(Base(h), u[1..]) == q * t + r && r < t
  {
    hide Val, Pow, FromHalves, LHalf, AreDigits;
    ghost var B := Base(h);
    DigitAt(B, u[..], 1);
    DigitAt(B, u[..], 2);
    DigitAt(B, u[..], 3);
    DigitAt(B, u[..], 4);
    ghost var v2, v3 := TwoDigits(B, u[1], u[2]), TwoDigits(B, TwoDigits(B, u[1], u[2]), u[3]);
    FirstDigit(h, u[1], t);
    var q1: nat, r1: nat := LHalf(h, u[1] / t), u[1] % t;
    var q2, r2 := ShortDigit(h, t, r1, u[2], u[1], q1);
    var q3, r3 := ShortDigit(h, t, r2, u[3], v2, TwoDigits(B, q1, q2));
    var q4, r4 := ShortDigit(h, t, r3, u[4], v3, TwoDigits(B, TwoDigits(B, q1, q2), q3));
    q, r := FromHalves(h, q1, q2, q3, q4), r4;
    assert u[1..] == [u[1], u[2], u[3], u[4]];
    Horner(B, [u[1], u[2], u[3], u[4]]);
    Horner(B, [q1, q2, q3, q4]);
    FourDigits(B, q1, q2, q3, q4);
    FromHalvesIsVal(h, [q1, q2, q3, q4]);
  }

  lemma FourDigits(B: nat, a: nat, b: nat, c: nat, d: nat)
    requires a < B && b < B && c < B && d < B
    ensures AreDigits(B, [a, b, c, d])
  {}

  lemma FirstDigit(h: nat, x: nat, t: nat)
    requires 0 < t && x < Base(h)
    ensures 0 <= x / t && LHalf(h, x / t) == x / t && x / t < Base(h) && x % t < t
    ensures x == (x / t) * t + x % t
  {
    hide Pow, BitAnd;
    DivMod(x, t);
    if x / t < 0 {
      MulMono(x / t, -1, t);
      assert false;
    }
    MulAtLeast(t, x / t);
    LHalfIsMod(h, x / t);
    SmallMod(x / t, Base(h));
  }

  lemma Horner(B: nat, s: seq<nat>)
    requires |s| == 4
    ensures Val(B, s) == TwoDigits(B, TwoDigits(B, TwoDigits(B, s[0], s[1]), s[2]), s[3])
  {
    assert s == ((([] + [s[0]]) + [s[1]]) + [s[2]]) + [s[3]];
    ValOne(B, s[0]);
    ValAppend(B, [s[0]], s[1]);
    ValAppend(B, [s[0]] + [s[1]], s[2]);
    ValAppend(B, [s[0]] + [s[1]] + [s[2]], s[3]);
    assert [] + [s[0]] == [s[0]];
  }

  // ---------------------------------------------------------------- shifts

  // LHALF(x << sh) is the part of the shifted digit that stays.
  lemma ShiftedLow(h: nat, x: nat, sh: nat)
    requires sh <= h && x < Base(h)
    ensures LHalf(h, ShiftLeft(x, sh, 2 * h)) == ShlLow(h, x, sh)
  {
    hide Pow, BitAnd;
    ShlDigit(h, x, sh);
    WordIsTwoHalves(h);
    MulMono(x, Base(h) - 1, Base(sh));
    SmallerShift(h, sh);
    MulMono(Base(sh), Base(h), Base(h) - 1);
    MulDist(Base(h), -1, Base(h));
    MulPos(x, Base(sh));
    SmallMod(x * Base(sh), Base(2 * h));
    LHalfIsMod(h, x * Base(sh));
  }

  lemma SmallerShift(h: nat, sh: nat)
    requires sh <= h
    ensures Base(sh) <= Base(h)
  {
    PowAdd(2, h - sh, sh);
    MulAtLeast(Base(h - sh), Base(sh));
  }

  // The OR in shl joins bits that do not overlap.
  lemma OrShl(h: nat, x: nat, y: nat, sh: nat)
    requires sh <= h && x < Base(h) && y < Base(h)
    ensures BitOr(LHalf(h, ShiftLeft(x, sh, 2 * h)), ShiftRight(y, h - sh)) == ShlLow(h, x, sh) + ShlHigh(h, y, sh)
  {
    hide Pow, BitAnd, BitOr;
    ShiftedLow(h, x, sh);
    ShlDigit(h, x, sh);
    ShlDigit(h, y, sh);
    OrDisjoint(x % Base(h - sh), ShlHigh(h, y, sh), sh);
  }

  // The OR in the final unshift joins bits that do not overlap.
  lemma OrShr(h: nat, x: nat, left: nat, d: nat)
    requires d <= h && x < Base(h) && left < Base(h)
    ensures BitOr(ShiftRight(x, d), LHalf(h, ShiftLeft(left, h - d, 2 * h))) == ShiftRight(x, d) + ShlLow(h, left,
            h - d)
  {
    hide Pow, BitAnd, BitOr;
    ShiftedLow(h, left, h - d);
    ShlDigit(h, left, h - d);
    ShlDigit(h, x, h - d);
    assert h - (h - d) == d;
    OrComm(ShiftRight(x, d), ShlLow(h, left, h - d));
    OrDisjoint(left % Base(d), ShiftRight(x, d), h - d);
  }

  // shl: shift p[lo]..p[lo + len] left in place, left to right.
  method ShiftDigits(h: nat, p: array<nat>, lo: nat, len: nat, sh: nat)
    requires sh <= h && lo + len < p.Length && AreDigits(Base(h), p[..])
    modifies p
    ensures p[..] == old(p[..lo]) + Shl(h, old(p[lo..lo + len + 1]), sh) + old(p[lo + len + 1..])
  {
    hide Pow, BitAnd, BitOr, Shl, ShlLow, ShlHigh, LHalf, ShiftLeft, ShiftRight, Base;
    ghost var s := p[..];
    ghost var t := s[lo..lo + len + 1];
    assert forall k | 0 <= k < |s| :: s[k] < Base(h);
    var i := 0;
    while i < len
      invariant 0 <= i <= len
      invariant forall k | 0 <= k < p.Length && !(lo <= k < lo + i) :: p[k] == s[k]
      invariant forall k | 0 <= k < i :: p[lo + k] == Shl(h, t, sh)[k]
    {
      OrShl(h, p[lo + i], p[lo + i + 1], sh);
      ShlAt(h, t, sh, i);
      assert t[i] == p[lo + i] && t[i + 1] == p[lo + i + 1];
      p[lo + i] := BitOr(LHalf(h, ShiftLeft(p[lo + i], sh, 2 * h)), ShiftRight(p[lo + i + 1], h - sh));
      i := i + 1;
    }
    ShiftedLow(h, p[lo + len], sh);
    ShlAt(h, t, sh, len);
    p[lo + len] := LHalf(h, ShiftLeft(p[lo + len], sh, 2 * h));
  }

  // The remainder unshift: u[lo]..u[lo + n] move down d bits, right to left, and u[lo] is cleared.
  method UnshiftDigits(h: nat, u: array<nat>, lo: nat, n: nat, d: nat)
    requires d <= h && lo + n < u.Length && AreDigits(Base(h), u[..]) && u[lo] == 0
    modifies u
    ensures u[..] == old(u[..lo]) + Shr(h, old(u[lo..lo + n + 1]), d) + old(u[lo + n + 1..])
  {
    hide Pow, BitAnd, BitOr, Shr, ShlLow, LHalf, ShiftLeft, ShiftRight, Base;
    ghost var s := u[..];
    ghost var t := s[lo..lo + n + 1];
    assert forall k | 0 <= k < |s| :: s[k] < Base(h);
    var i := n;
    while i > 0
      invariant 0 <= i <= n
      invariant forall k | 0 <= k < u.Length && !(lo + i < k <= lo + n) :: u[k] == s[k]
      invariant forall k | i < k <= n :: u[lo + k] == Shr(h, t, d)[k]
    {
      OrShr(h, u[lo + i], u[lo + i - 1], d);
      ShrAt(h, t, d, i);
      assert t[i] == u[lo + i] && t[i - 1] == u[lo + i - 1];
      u[lo + i] := BitOr(ShiftRight(u[lo + i], d), LHalf(h, ShiftLeft(u[lo + i - 1], h - d, 2 * h)));
      i := i - 1;
    }
    ShrAt(h, t, d, 0);
    ZeroShift(d);
    u[lo] := 0;
  }

  lemma ZeroShift(d: nat)
    ensures ShiftRight(0, d) == 0
  {
    SmallMod(0, Base(d));
  }

  // ---------------------------------------------------------------- the main loop

  // A value below B^n has a zero in front when written with n + 1 digits.
  lemma ZeroTop(B: nat, w: seq<nat>, v: seq<nat>)
    requires |w| == |v| + 1 && AreDigits(B, v) && Val(B, w) < Val(B, v)
    ensures w[0] == 0
    ensures Val(B, w[1..]) == Val(B, w)
  {
    ValBound(B, v);
    assert w == [w[0]] + w[1..];
    ValCons(B, w[0], w[1..]);
    if w[0] > 0 {
      MulAtLeast(w[0], Pow(B, |v|));
    }
  }

  // What the loop keeps: the digits produced so far times the divisor, plus what is left.
  predicate Dividing(B: nat, total: nat, qs: seq<nat>, v: nat, left: seq<nat>, turns: nat) {
    total == Val(B, qs) * v * Pow(B, turns) + Val(B, left)
  }

  lemma DividingStep(B: nat, total: nat, qs: seq<nat>, v: nat, w0: seq<nat>, rest: seq<nat>, q: nat, w: seq<nat>)
    requires Dividing(B, total, qs, v, w0 + rest, |rest| + 1)
    requires Val(B, w0) == q * v + Val(B, w)
    ensures Dividing(B, total, qs + [q], v, w + rest, |rest|)
  {
    var p := Pow(B, |rest|);
    ValConcat(B, w0, rest);
    ValConcat(B, w, rest);
    ValAppend(B, qs, q);
    DividingArith(B, p, Val(B, qs), v, q, Val(B, w));
  }

  lemma DividingArith(B: nat, p: nat, qs: nat, v: nat, q: nat, w: nat)
    ensures qs * v * (B * p) + (q * v + w) * p == (qs * B + q) * v * p + w * p
  {
    MulDist(q * v, w, p);
    MulDist(qs * B, q, v);
    MulDist(qs * B * v, q * v, p);
    assert qs * v * (B * p) == qs * B * v * p by {
      MulAssoc(qs * v, B, p);
      MulAssoc(qs, v, B);
      MulComm(v, B);
      MulAssoc(qs, B, v);
    }
  }

  // D2 to D7: m + 1 quotient digits, one window at a time.
  method DivideLoop(h: nat, u: array<nat>, uo: nat, v: array<nat>, vo: nat, q: array<nat>, qo: nat, m: nat, n: nat)
    requires h > 0 && n >= 2 && u != v && u != q && v != q
    requires u.Length == uo + m + n + 1 && vo + n < v.Length && q.Length == qo + m + 1
    requires AreDigits(Base(h), u[..]) && AreDigits(Base(h), v[..]) && 2 * v[vo + 1] >= Base(h)
    requires Val(Base(h), u[uo..uo + n]) < Val(Base(h), v[vo + 1..vo + n + 1])
    modifies u, q
    ensures AreDigits(Base(h), u[..]) && AreDigits(Base(h), q[qo..])
    ensures u[..uo] == old(u[..uo]) && q[..qo] == old(q[..qo])
    ensures forall k | uo <= k <= uo + m :: u[k] == 0
    ensures Val(Base(h), u[uo + m + 1..]) < Val(Base(h), v[vo + 1..vo + n + 1])
    ensures Val(Base(h), old(u[uo..]))
         == Val(Base(h), q[qo..]) * Val(Base(h), v[vo + 1..vo + n + 1]) + Val(Base(h), u[uo + m + 1..])
  {
    hide Val, Pow, Dividing;
    ghost var B, d := Base(h), v[vo + 1..vo + n + 1];
    ghost var total := Val(B, u[uo..]);
    StartDividing(B, total, Val(B, d), u[uo..], m + 1);
    ghost var qs := [];
    var j := 0;
    while j <= m
      invariant 0 <= j <= m + 1 && |qs| == j
      invariant AreDigits(B, u[..]) && AreDigits(B, qs)
      invariant u[..uo] == old(u[..uo]) && q[..qo] == old(q[..qo])
      invariant q[qo..qo + j] == qs
      invariant forall k | uo <= k < uo + j :: u[k] == 0
      invariant Val(B, u[uo + j..uo + j + n]) < Val(B, d)
      invariant Dividing(B, total, qs, Val(B, d), u[uo + j..], m + 1 - j)
    {
      j, qs := DivideTurn(h, u, uo, v, vo, q, qo, m, n, j, qs, total);
    }
    assert u[uo + m + 1..uo + m + 1 + n] == u[uo + m + 1..];
    assert q[qo..] == qs;
    EndDividing(B, total, qs, Val(B, d), u[uo + m + 1..]);
  }

  lemma StartDividing(B: nat, total: nat, v: nat, left: seq<nat>, turns: nat)
    requires total == Val(B, left)
    ensures Dividing(B, total, [], v, left, turns)
  {}

  lemma EndDividing(B: nat, total: nat, qs: seq<nat>, v: nat, left: seq<nat>)
    requires Dividing(B, total, qs, v, left, 0)
    ensures total == Val(B, qs) * v + Val(B, left)
  {}

  // One turn of the do-while loop.
  method DivideTurn(h: nat, u: array<nat>, uo: nat, v: array<nat>, vo: nat, q: array<nat>, qo: nat, m: nat, n: nat,
                    j: nat, ghost qs: seq<nat>, ghost total: nat)
    returns (j': nat, ghost qs': seq<nat>)
    requires h > 0 && n >= 2 && u != v && u != q && v != q && j <= m && |qs| == j
    requires u.Length == uo + m + n + 1 && vo + n < v.Length && q.Length == qo + m + 1
    requires AreDigits(Base(h), u[..]) && AreDigits(Base(h), v[..]) && 2 * v[vo + 1] >= Base(h)
    requires q[qo..qo + j] == qs && AreDigits(Base(h), qs)
    requires forall k | uo <= k < uo + j :: u[k] == 0
    requires Val(Base(h), u[uo + j..uo + j + n]) < Val(Base(h), v[vo + 1..vo + n + 1])
    requires Dividing(Base(h), total, qs, Val(Base(h), v[vo + 1..vo + n + 1]), u[uo + j..], m + 1 - j)
    modifies u, q
    ensures j' == j + 1 && |qs'| == j' && AreDigits(Base(h), qs')
    ensures AreDigits(Base(h), u[..])
    ensures u[..uo] == old(u[..uo]) && q[..qo] == old(q[..qo])
    ensures q[qo..qo + j'] == qs'
    ensures forall k | uo <= k < uo + j' :: u[k] == 0
    ensures Val(Base(h), u[uo + j'..uo + j' + n]) < Val(Base(h), v[vo + 1..vo + n + 1])
    ensures Dividing(Base(h), total, qs', Val(Base(h), v[vo + 1..vo + n + 1]), u[uo + j'..], m + 1 - j')
  {
    hide Val, Pow, Dividing, AreDigits;
    ghost var B, d, o := Base(h), v[vo + 1..vo + n + 1], uo + j;
    ghost var left, w0, rest, b := u[..o], u[o..o + n + 1], u[o + n + 1..], u[..];
    assert u[o..] == w0 + rest;
    SubDigits(B, v[..], vo + 1, vo + n + 1);
    var digit, w := DivideDigit(h, u, uo + j, v, vo, n);
    ZeroTop(B, w, d);
    DividingStep(B, total, qs, Val(B, d), w0, rest, digit, w);
    DropZero(B, total, qs + [digit], Val(B, d), w, rest, m - j);
    WindowSlices(b, u[..], o, n, w);
    assert u[o + 1..] == u[..][o + 1..] && u[o + 1..o + 1 + n] == u[..][o + 1..o + 1 + n];
    JoinDigits(B, b, o, n, w);
    AppendDigit(B, qs, digit);
    q[qo + j] := digit;
    qs' := qs + [digit];
    j' := j + 1;
    assert u[..uo] == left[..uo];
  }

  lemma WindowSlices(b: seq<nat>, a: seq<nat>, o: nat, n: nat, w: seq<nat>)
    requires |w| == n + 1 && o + n < |b| && a == b[..o] + w + b[o + n + 1..]
    ensures a[o + 1..] == w[1..] + b[o + n + 1..]
    ensures a[o + 1..o + 1 + n] == w[1..]
  {}

  lemma SubDigits(B: nat, s: seq<nat>, i: nat, j: nat)
    requires AreDigits(B, s) && i <= j <= |s|
    ensures AreDigits(B, s[i..j])
  {}

  lemma JoinDigits(B: nat, s: seq<nat>, o: nat, n: nat, w: seq<nat>)
    requires AreDigits(B, s) && AreDigits(B, w) && o + n < |s|
    ensures AreDigits(B, s[..o] + w + s[o + n + 1..])
  {}

  lemma AppendDigit(B: nat, s: seq<nat>, x: nat)
    requires AreDigits(B, s) && x < B
    ensures AreDigits(B, s + [x])
  {}

  lemma DropZero(B: nat, total: nat, qs: seq<nat>, v: nat, w: seq<nat>, rest: seq<nat>, turns: nat)
    requires |w| > 0 && w[0] == 0 && Dividing(B, total, qs, v, w + rest, turns)
    ensures Dividing(B, total, qs, v, w[1..] + rest, turns)
  {
    assert w + rest == [0] + (w[1..] + rest);
    ValCons(B, 0, w[1..] + rest);
  }

  // ---------------------------------------------------------------- D1

  // D1: the shift that brings the leading divisor digit to at least B / 2.
  method NormalShift(h: nat, v1: nat) returns (d: nat)
    requires h > 0 && 0 < v1 < Base(h)
    ensures d < h && v1 * Base(d) < Base(h) <= 2 * (v1 * Base(d))
  {
    assert Base(h) == 2 * Base(h - 1);
    hide Pow;
    d := 0;
    var t: nat := v1;
    ShiftByZero(v1);
    while t < Base(h) / 2
      invariant t == v1 * Base(d) < Base(h) && d < h
      decreases Base(h) - t
    {
      ShiftOnce(h, v1, d, t);
      t := ShiftLeft(t, 1, 2 * h);
      d := d + 1;
    }
  }

  lemma ShiftByZero(x: nat)
    ensures Base(0) == 1 && x * Base(0) == x
  {}

  lemma ShiftOnce(h: nat, v1: nat, d: nat, t: nat)
    requires h > 0 && 0 < v1 && t == v1 * Base(d) && t < Base(h) / 2 && d < h
    ensures ShiftLeft(t, 1, 2 * h) == v1 * Base(d + 1) == 2 * t < Base(h)
    ensures d + 1 < h && t > 0
  {
    assert Base(h) == 2 * Base(h - 1);
    MulAtLeast(v1, Base(d));
    MulAssoc(v1, 2, Base(d));
    WordIsTwoHalves(h);
    MulAtLeast(Base(h), Base(h));
    assert Base(1) == 2;
    SmallMod(t * 2, Base(2 * h));
    if d + 1 == h {
      assert false;
    }
  }

  // Shifting the dividend or the divisor by the normalising shift loses nothing.
  lemma ShiftKeeps(h: nat, s: seq<nat>, d: nat)
    requires d <= h && |s| > 0 && AreDigits(Base(h), s) && s[0] * Base(d) < Base(h)
    ensures AreDigits(Base(h), Shl(h, s, d))
    ensures Val(Base(h), Shl(h, s, d)) == Val(Base(h), s) * Base(d)
    ensures Shl(h, s, d)[0] >= s[0] * Base(d)
  {
    hide Pow, Val, Shl, ShlLow, ShlHigh;
    ShlValue(h, s, d);
    ShlDigit(h, s[0], d);
    ShlAt(h, s, d, 0);
    NoOverflow(h, s[0], d, ShlHigh(h, s[0], d), ShlLow(h, s[0], d));
  }

  lemma NoOverflow(h: nat, x: nat, d: nat, hi: nat, lo: nat)
    requires x * Base(d) < Base(h) && x * Base(d) == hi * Base(h) + lo
    ensures hi == 0 && lo == x * Base(d)
  {
    hide Pow;
    if hi > 0 {
      MulAtLeast(hi, Base(h));
      assert false;
    }
  }

  // The top n digits of the shifted dividend are below the shifted divisor.
  lemma FirstWindow(B: nat, u: seq<nat>, v: seq<nat>, m: nat, k: nat)
    requires |v| >= 1 && |u| == m + |v| + 1 && AreDigits(B, u) && u[0] == 0 && v[0] > 0 && k > 0
    ensures Val(B, u) * k < (Val(B, v) * k) * Pow(B, m + 1)
  {
    var n := |v|;
    assert u == [0] + u[1..];
    ValCons(B, 0, u[1..]);
    ValBound(B, u[1..]);
    ValAtLeast(B, v);
    PowAdd(B, n - 1, m + 1);
    var p, vv := Pow(B, m + 1), Val(B, v);
    MulMono(Pow(B, n - 1), vv, p);
    assert Val(B, u) < vv * p;
    MulMono(Val(B, u) + 1, vv * p, k);
    MulDist(Val(B, u), 1, k);
    assert vv * p * k == vv * k * p by {
      MulAssoc(vv, p, k);
      MulComm(p, k);
      MulAssoc(vv, k, p);
    }
  }

  lemma TopOfWindow(B: nat, u: seq<nat>, n: nat, v: nat)
    requires n <= |u| && Val(B, u) < v * Pow(B, |u| - n)
    ensures Val(B, u[..n]) < v
  {
    assert u == u[..n] + u[n..];
    ValConcat(B, u[..n], u[n..]);
    if Val(B, u[..n]) >= v {
      MulMono(v, Val(B, u[..n]), Pow(B, |u| - n));
    }
  }

  // From the shifted identity back to the division asked for.
  lemma UndoShift(u: nat, v: nat, k: nat, q: nat, r: nat)
    requires k > 0 && u * k == q * (v * k) + r && r < v * k
    ensures 0 <= u - q * v < v && r == (u - q * v) * k
  {
    MulAssoc(q, v, k);
    MulDist(u, -(q * v), k);
    if u - q * v < 0 {
      MulMono(u - q * v, -1, k);
      assert false;
    } else if u - q * v >= v {
      MulMono(v, u - q * v, k);
      assert false;
    }
  }

  // ---------------------------------------------------------------- the whole division

  // Pad the unused quotient digits with zeros.
  method ZeroQuotient(m: nat) returns (q: array<nat>)
    requires m <= 4
    ensures fresh(q) && q.Length == 5 && forall k | 0 <= k < 4 - m :: q[k] == 0
  {
    q := new nat[5];
    var i := 4 - m;
    while i > 0
      invariant 0 <= i <= 4 - m
      invariant forall k | i <= k < 4 - m :: q[k] == 0
    {
      i := i - 1;
      q[i] := 0;
    }
  }

  // Skip the leading zero digits of the dividend.
  method SkipZeros(h: nat, u: array<nat>, n: nat, ghost vll: nat) returns (uo: nat, m: nat)
    requires 2 <= n <= 4 && u.Length == 5 && u[0] == 0 && AreDigits(Base(h), u[..])
    requires Val(Base(h), u[1..]) >= vll >= Pow(Base(h), n - 1)
    ensures uo + m + n == 4 && u[uo + 1] != 0
    ensures forall k | 0 <= k <= uo :: u[k] == 0
  {
    hide Val, Pow;
    uo, m := 0, 4 - n;
    while u[uo + 1] == 0
      invariant uo + m + n == 4
      invariant forall k | 0 <= k <= uo :: u[k] == 0
      decreases m
    {
      if m == 0 {
        TooManyZeros(Base(h), u[1..], n);
        assert false;
      }
      uo := uo + 1;
      m := m - 1;
    }
  }

  lemma TooManyZeros(B: nat, s: seq<nat>, n: nat)
    requires 1 <= n <= |s| && AreDigits(B, s)
    requires forall k | 0 <= k < |s| - n + 1 :: s[k] == 0
    ensures Val(B, s) < Pow(B, n - 1)
  {
    ValSkipZeros(B, s, |s| - n + 1);
    ValBound(B, s[|s| - n + 1..]);
  }

  // Normalise both operands in place; a shift of zero is skipped, as in the code.
  method Normalise(h: nat, u: array<nat>, uo: nat, m: nat, v: array<nat>, vo: nat, n: nat)
    returns (d: nat)
    requires h > 0 && n >= 1 && u != v && u.Length == uo + m + n + 1 && v.Length == vo + n + 1
    requires AreDigits(Base(h), u[..]) && AreDigits(Base(h), v[..]) && u[uo] == 0 && v[vo + 1] > 0
    modifies u, v
    ensures d < h && AreDigits(Base(h), u[..]) && AreDigits(Base(h), v[..])
    ensures u[..uo] == old(u[..uo]) && 2 * v[vo + 1] >= Base(h)
    ensures Val(Base(h), u[uo..]) == old(Val(Base(h), u[uo..])) * Base(d)
    ensures Val(Base(h), v[vo + 1..]) == old(Val(Base(h), v[vo + 1..])) * Base(d)
  {
    hide Val, Pow, Shl, AreDigits;
    DigitAt(Base(h), v[..], vo + 1);
    d := NormalShift(h, v[vo + 1]);
    ShiftByZero(Val(Base(h), u[uo..]));
    ShiftByZero(Val(Base(h), v[vo + 1..]));
    ShiftByZero(v[vo + 1]);
    if d > 0 {
      ghost var us, vs := u[uo..], v[vo + 1..];
      SubDigits(Base(h), u[..], uo, |u[..]|);
      SubDigits(Base(h), v[..], vo + 1, |v[..]|);
      assert us == u[uo..uo + (m + n) + 1] && vs == v[vo + 1..(vo + 1) + (n - 1) + 1];
      assert us == u[..][uo..|u[..]|] && vs == v[..][vo + 1..|v[..]|];
      ShiftKeeps(h, us, d);
      ShiftKeeps(h, vs, d);
      JoinTail(Base(h), u[..], uo, Shl(h, us, d));
      JoinTail(Base(h), v[..], vo + 1, Shl(h, vs, d));
      ShiftDigits(h, u, uo, m + n, d);
      ShiftDigits(h, v, vo + 1, n - 1, d);
      assert u[uo..] == Shl(h, us, d) && v[vo + 1..] == Shl(h, vs, d);
    }
  }

  lemma DigitAt(B: nat, s: seq<nat>, i: nat)
    requires AreDigits(B, s) && i < |s|
    ensures s[i] < B
  {}

  lemma JoinTail(B: nat, s: seq<nat>, o: nat, t: seq<nat>)
    requires AreDigits(B, s) && AreDigits(B, t) && o <= |s|
    ensures AreDigits(B, s[..o] + t)
    ensures AreDigits(B, s[..o] + t + [])
  {}

  // Read the remainder out of the dividend's array.
  method Remainder(h: nat, u: array<nat>, lo: nat, n: nat, d: nat, ghost r: nat) returns (rem: nat)
    requires d < h && u.Length == 5 && lo + n == 4 && AreDigits(Base(h), u[..])
    requires forall k | 0 <= k <= lo :: u[k] == 0
    requires Val(Base(h), u[lo + 1..]) == r * Base(d)
    modifies u
    ensures rem == r
  {
    hide Val, Pow, Shr, AreDigits;
    ghost var s := u[lo..];
    SubDigits(Base(h), u[..], lo, 5);
    assert s == u[..][lo..5] && s[1..] == u[lo + 1..] && s == u[lo..lo + n + 1];
    SkipOne(Base(h), s);
    ShrExact(h, s, d, r);
    if d > 0 {
      UnshiftDigits(h, u, lo, n, d);
      assert u[lo..] == Shr(h, s, d);
      assert u[..lo] == old(u[..lo]);
    } else {
      ShiftByZero(r);
    }
    assert Val(Base(h), u[lo..]) == r && AreDigits(Base(h), u[lo..]);
    ReadOut(h, u[..], lo, r);
    assert u[1..] == u[..][1..];
    rem := FromHalves(h, u[1], u[2], u[3], u[4]);
  }

  lemma SkipOne(B: nat, s: seq<nat>)
    requires |s| > 0 && s[0] == 0
    ensures Val(B, s) == Val(B, s[1..])
  {
    ValSkipZeros(B, s, 1);
  }

  // Unshifting an exact multiple gives the exact quotient.
  lemma ShrExact(h: nat, s: seq<nat>, d: nat, r: nat)
    requires d <= h && |s| > 0 && AreDigits(Base(h), s) && Val(Base(h), s) == r * Base(d) && s[0] == 0
    ensures Val(Base(h), Shr(h, s, d)) == r
    ensures AreDigits(Base(h), Shr(h, s, d)) && Shr(h, s, d)[0] == 0
  {
    hide Val, Pow, Shr;
    var m := Base(d);
    ShrValue(h, s, d);
    DivMod(s[|s| - 1], m);
    DivModUnique(r * m, m, r, 0);
    DivModUnique(r * m, m, Val(Base(h), Shr(h, s, d)), s[|s| - 1] % m);
    forall i | 0 <= i < |s|
      ensures Shr(h, s, d)[i] < Base(h)
    {
      ShrAt(h, s, d, i);
      ShrDigitBound(h, s[i], if i > 0 then s[i - 1] else 0, d);
      ShrDigitBound(h, s[i], 0, d);
    }
    ShrAt(h, s, d, 0);
    ZeroShift(d);
  }

  lemma ShrDigitBound(h: nat, x: nat, left: nat, d: nat)
    requires d <= h && x < Base(h) && left < Base(h)
    ensures ShiftRight(x, d) + ShlLow(h, left, h - d) < Base(h)
    ensures ShiftRight(x, d) < Base(h)
  {
    hide Pow;
    ShlDigit(h, left, h - d);
    ShlDigit(h, x, h - d);
    assert h - (h - d) == d;
  }

  lemma ReadOut(h: nat, s: seq<nat>, lo: nat, r: nat)
    requires |s| == 5 && lo <= 4 && AreDigits(Base(h), s[lo..])
    requires forall k | 0 <= k <= lo :: s[k] == 0
    requires Val(Base(h), s[lo..]) == r
    ensures FromHalves(h, s[1], s[2], s[3], s[4]) == r
  {
    hide FromHalves, Val, Pow;
    var t := s[1..];
    if lo == 0 {
      SkipOne(Base(h), s[0..]);
      assert s[0..][1..] == t;
      assert AreDigits(Base(h), t) by {
        assert forall i | 0 <= i < 4 :: t[i] == s[0..][i + 1];
      }
    } else {
      assert t[lo - 1..] == s[lo..];
      ValSkipZeros(Base(h), t, lo - 1);
      assert AreDigits(Base(h), t) by {
        assert forall i | lo - 1 <= i < 4 :: t[i] == s[lo..][i + 1 - lo];
      }
    }
    FromHalvesIsVal(h, t);
  }

  // Algorithm D proper: the divisor has at least two digits.
  method LongDivide(h: nat, u: array<nat>, v: array<nat>, vo: nat, n: nat, arq: bool)
    returns (quot: nat, rem: Option<nat>)
    requires h > 0 && u != v && u.Length == 5 && v.Length == 5 && vo + n == 4 && n >= 2
    requires AreDigits(Base(h), u[..]) && AreDigits(Base(h), v[..]) && u[0] == 0 && v[vo + 1] > 0
    requires Val(Base(h), u[1..]) >= Val(Base(h), v[vo + 1..])
    modifies u, v
    ensures 0 <= old(Val(Base(h), u[1..])) - quot * old(Val(Base(h), v[vo + 1..])) < old(Val(Base(h), v[vo + 1..]))
    ensures rem == if arq then Some(old(Val(Base(h), u[1..])) - quot * old(Val(Base(h), v[vo + 1..]))) else None
  {
    hide Val, Pow, AreDigits, FromHalves;
    ghost var B, ull, vll := Base(h), Val(Base(h), u[1..]), Val(Base(h), v[vo + 1..]);
    var uo, m, d := Prepare(h, u, v, vo, n);
    var q := ZeroQuotient(m);
    DivideLoop(h, u, uo, v, vo, q, 4 - m, m, n);
    ghost var Q := Val(B, q[4 - m..]);
    UndoShift(ull, vll, Base(d), Q, Val(B, u[uo + m + 1..]));
    SkipOneDigits(B, q[..], 4 - m);
    assert q[..][4 - m..] == q[4 - m..] && q[..][3 - m..] == q[3 - m..];
    rem := None;
    if arq {
      var r := Remainder(h, u, uo + m, n, d, ull - Q * vll);
      rem := Some(r);
    }
    ReadOut(h, q[..], 3 - m, Q);
    quot := FromHalves(h, q[1], q[2], q[3], q[4]);
  }

  // Count the dividend's digits and normalise.
  method Prepare(h: nat, u: array<nat>, v: array<nat>, vo: nat, n: nat) returns (uo: nat, m: nat, d: nat)
    requires h > 0 && u != v && u.Length == 5 && v.Length == 5 && vo + n == 4 && n >= 2
    requires AreDigits(Base(h), u[..]) && AreDigits(Base(h), v[..]) && u[0] == 0 && v[vo + 1] > 0
    requires Val(Base(h), u[1..]) >= Val(Base(h), v[vo + 1..])
    modifies u, v
    ensures uo + m + n == 4 && d < h
    ensures AreDigits(Base(h), u[..]) && AreDigits(Base(h), v[..]) && 2 * v[vo + 1] >= Base(h)
    ensures forall k | 0 <= k < uo :: u[k] == 0
    ensures Val(Base(h), u[uo..]) == old(Val(Base(h), u[1..])) * Base(d)
    ensures v[vo + 1..] == v[vo + 1..vo + n + 1]
    ensures Val(Base(h), v[vo + 1..vo + n + 1]) == old(Val(Base(h), v[vo + 1..])) * Base(d)
    ensures Val(Base(h), u[uo..uo + n]) < Val(Base(h), v[vo + 1..vo + n + 1])
  {
    hide Val, Pow, AreDigits;
    ghost var B, vll := Base(h), Val(Base(h), v[vo + 1..]);
    ValAtLeast(B, v[vo + 1..]);
    uo, m := SkipZeros(h, u, n, vll);
    DropLeading(B, u[..], uo);
    assert u[..][uo..] == u[uo..] && u[..][1..] == u[1..];
    SubDigits(B, u[..], uo, 5);
    assert u[..][uo..5] == u[uo..];
    ghost var us, vs, z := u[uo..], v[vo + 1..], u[..uo];
    assert forall k | 0 <= k < uo :: z[k] == 0;
    d := Normalise(h, u, uo, m, v, vo, n);
    assert forall k | 0 <= k < uo :: u[..uo][k] == 0;
    FirstWindow(B, us, vs, m, Base(d));
    TopOfWindow(B, u[uo..], n, Val(B, v[vo + 1..]));
    assert u[uo..][..n] == u[uo..uo + n];
    assert v[vo + 1..] == v[vo + 1..vo + n + 1];
  }

  lemma DropLeading(B: nat, s: seq<nat>, k: nat)
    requires k < |s| && forall i | 0 <= i <= k :: s[i] == 0
    ensures Val(B, s[1..]) == Val(B, s[k..])
  {
    ValSkipZeros(B, s, 1);
    ValSkipZeros(B, s, k);
  }

  lemma SkipOneDigits(B: nat, s: seq<nat>, k: nat)
    requires 0 < k <= |s| && B > 0 && s[k - 1] == 0 && AreDigits(B, s[k..])
    ensures AreDigits(B, s[k - 1..]) && Val(B, s[k - 1..]) == Val(B, s[k..])
  {
    assert s[k - 1..] == [0] + s[k..];
    ValCons(B, 0, s[k..]);
  }

  /**
   __qdivrem: for every dividend and every nonzero divisor of 4 * h bits, the result is the
   mathematical quotient and, when asked for, the mathematical remainder.
   A zero divisor makes the code execute 1 / 0.
   */
  method DivRem(h: nat, ull: nat, vll: nat, arq: bool) returns (r: Outcome)
    requires h > 0 && ull < Base(4 * h) && vll < Base(4 * h)
    ensures r.DivideTrap? <==> vll == 0
    ensures vll != 0 ==> r == Quotient(ull / vll, if arq then Some(ull % vll) else None)
  {
    hide Val, Pow;
    if vll == 0 {
      return DivideTrap;
    }
    if ull < vll {
      SmallMod(ull, vll);
      return Quotient(0, if arq then Some(ull) else None);
    }
    var u := LoadDigits(h, ull);
    var v := LoadDigits(h, vll);
    var n, vo := 4, 0;
    ghost var us, vs := u[..], v[..];
    while v[vo + 1] == 0
      invariant u[..] == us && v[..] == vs
      invariant vo + n == 4 && 2 <= n && 0 <= vo
      invariant Val(Base(h), v[vo + 1..]) == vll
      decreases n
    {
      SkipOne(Base(h), v[vo + 1..]);
      assert v[vo + 1..][1..] == v[vo + 2..];
      n := n - 1;
      if n == 1 {
        assert v[4..] == [v[4]];
        ValOne(Base(h), v[4]);
        assert v[..][4] < Base(h);
        assert u[1..] == us[1..];
        var q, rem := ShortDivide(h, u, v[vo + 2]);
        DivModUnique(ull, vll, q, rem);
        return Quotient(q, if arq then Some(rem) else None);
      }
      vo := vo + 1;
    }
    assert u[0] == us[0] && u[1..] == us[1..];
    var q, rem := LongDivide(h, u, v, vo, n, arq);
    DivModUnique(ull, vll, q, ull - q * vll);
    r := Quotient(q, rem);
  }
}
