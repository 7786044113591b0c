/**
 The long long division of the millicode: Knuth's Algorithm D on digits of h
 bits, inside unsigned ints of 2 * h bits that wrap around.
 The dividend, the divisor and the quotient are arrays of five digits and the
 pointers into them are offsets.
 */
module Division {
  import opened Bits
  import opened Digits
  import opened LongLong

  function Min(x: nat, y: nat): nat {
    if x < y then x else y
  }

  // ---------------------------------------------------------------- D3

  // The digit D3 aims for: the quotient of the window's three leading digits by the
  // divisor's two leading digits, cut off at B - 1.
  function TrialDigit(B: nat, u0: nat, u1: nat, u2: nat, v1: nat, v2: nat): nat
    requires B > 0 && v1 > 0
  {
    MulAtLeast(B, v1);
    Min(TwoDigits(B, TwoDigits(B, u0, u1), u2) / TwoDigits(B, v1, v2), B - 1)
  }

  function TwoDigits(B: nat, x: nat, y: nat): nat {
    x * B + y
  }

  // The test of D3 compares the two-digit product with the three-digit dividend.
  lemma QhatTest(B: nat, u01: nat, u2: nat, v1: nat, v2: nat, qhat: nat, rhat: nat)
    requires qhat * v1 + rhat == u01
    ensures (v2 * qhat > rhat * B + u2) <==> qhat * (v1 * B + v2) > u01 * B + u2
  {
    MulDist(qhat * v1, rhat, B);
    MulAssoc(qhat, v1, B);
    MulDist(v1 * B, v2, qhat);
  }

  // Once rhat reaches B the test can no longer fire.
  lemma QhatSettled(B: nat, u01: nat, u2: nat, v1: nat, v2: nat, qhat: nat, rhat: nat)
    requires qhat * v1 + rhat == u01
    requires rhat >= B && qhat < B && v2 < B
    ensures qhat * (v1 * B + v2) <= u01 * B + u2
  {
    QhatTest(B, u01, u2, v1, v2, qhat, rhat);
    MulMono(v2, B, qhat);
    MulMono(qhat, B, B);
    MulMono(B, rhat, B);
  }

  lemma QhatStart(B: nat, u0: nat, u1: nat, u2: nat, v1: nat, v2: nat, u01: nat)
    requires v1 > 0 && u0 < v1 && u1 < B && u2 < B && u01 == u0 * B + u1
    ensures u01 / v1 < B
    ensures (u01 / v1 + 1) * (v1 * B + v2) > u01 * B + u2
  {
    var q := u01 / v1;
    DivMod(u01, v1);
    MulDist(q, 1, v1);
    assert (q + 1) * v1 > u01;
    MulMono(u01 + 1, (q + 1) * v1, B);
    MulDist(u01, 1, B);
    MulAssoc(q + 1, v1, B);
    MulDist(v1 * B, v2, q + 1);
    MulPos(v2, q + 1);
    if q >= B {
      MulMono(B, q, v1);
      MulMono(u0 + 1, v1, B);
      MulDist(u0, 1, B);
      MulComm(v1, B);
      assert false;
    }
  }

  lemma QhatIsCapped(B: nat, u012: nat, v12: nat, qhat: nat)
    requires v12 > 0 && 0 < B && qhat < B
    requires qhat * v12 <= u012
    requires qhat == B - 1 || (qhat + 1) * v12 > u012
    ensures qhat == Min(u012 / v12, B - 1)
  {
    DivMod(u012, v12);
    var q := u012 / v12;
    if q < qhat {
      MulMono(q + 1, qhat, v12);
      MulDist(q, 1, v12);
      assert false;
    } else if (qhat + 1) * v12 > u012 && q > qhat {
      MulMono(qhat + 1, q, v12);
      assert false;
    }
  }

  /**
   D3: the trial digit, found with single-digit divisions and corrections.
   A normalised divisor needs at most two corrections.
   */
  method EstimateDigit(h: nat, uj0: nat, uj1: nat, uj2: nat, v1: nat, v2: nat)
    returns (qhat: nat, corrections: nat)
    requires uj0 <= v1 < Base(h) && 0 < v1
    requires uj1 < Base(h) && uj2 < Base(h) && v2 < Base(h)
    ensures qhat == TrialDigit(Base(h), uj0, uj1, uj2, v1, v2)
    ensures 2 * v1 >= Base(h) ==> corrections <= 2
  {
    hide Combine, Pow, Min;
    ghost var u01 := TwoDigits(Base(h), uj0, uj1);
    ghost var v12 := TwoDigits(Base(h), v1, v2);
    ghost var u012 := TwoDigits(Base(h), u01, uj2);
    if uj0 == v1 {
      MulComm(Base(h), v1);
      qhat, corrections := CorrectDigit(h, uj2, v1, v2, Base(h), uj1, true, u01, u012, v12);
    } else {
      CombineIsTwoDigits(h, uj0, uj1);
      QhatStart(Base(h), uj0, uj1, uj2, v1, v2, u01);
      var nn: nat := Combine(h, uj0, uj1);
      var q0: nat, r0: nat := DivideInt(nn, v1);
      var tooBig := TestDigit(h, uj2, v1, v2, q0, r0, u01, u012, v12);
      qhat, corrections := CorrectDigit(h, uj2, v1, v2, q0, r0, tooBig, u01, u012, v12);
    }
    assert v12 > 0 by {
      MulAtLeast(Base(h), v1);
    }
    QhatIsCapped(Base(h), u012, v12, qhat);
  }

  // Unsigned division by a digit.
  method DivideInt(x: nat, d: nat) returns (q: nat, r: nat)
    requires d > 0
    ensures q == x / d && r == x % d && x == q * d + r && r < d
  {
    DivMod(x, d);
    if x / d < 0 {
      MulMono(x / d, -1, d);
      assert false;
    }
    q, r := x / d, x % d;
  }

  // The correction loop of D3, entered at its test or, with qhat = B, inside its body.
  method CorrectDigit(h: nat, uj2: nat, v1: nat, v2: nat, q0: nat, r0: nat, big: bool,
                      ghost u01: nat, ghost u012: nat, ghost v12: nat)
    returns (qhat: nat, corrections: nat)
    requires v1 < Base(h) && v2 < Base(h) && uj2 < Base(h) && q0 <= Base(h) && r0 < Base(h)
    requires q0 * v1 + r0 == u01 && u012 == u01 * Base(h) + uj2 && v12 == v1 * Base(h) + v2
    requires q0 == Base(h) ==> big
    requires q0 < Base(h) ==> (q0 + 1) * v12 > u012 && (big <==> q0 * v12 > u012)
    ensures qhat < Base(h) && qhat * v12 <= u012
    ensures qhat == Base(h) - 1 || (qhat + 1) * v12 > u012
    ensures 2 * v1 >= Base(h) ==> corrections <= 2
  {
    var rhat: nat, tooBig := r0, big;
    qhat, corrections := q0, 0;
    while tooBig
      invariant qhat <= Base(h)
      invariant qhat == Base(h) ==> tooBig
      invariant tooBig ==> rhat < Base(h)
      invariant qhat < Base(h) ==> (tooBig <==> qhat * v12 > u012)
      invariant qhat >= Base(h) - 1 || (qhat + 1) * v12 > u012
      invariant qhat * v1 + rhat == u01
      invariant corrections >= 1 ==> rhat >= v1
      invariant corrections >= 2 ==> rhat >= 2 * v1
      invariant 2 * v1 >= Base(h) ==> corrections <= 2
      decreases qhat
    {
      if qhat == 0 {
        assert false;
      }
      StepDown(qhat, v1);
      qhat := qhat - 1;
      rhat := rhat + v1;
      corrections := corrections + 1;
      if rhat >= Base(h) {
        QhatSettled(Base(h), u01, uj2, v1, v2, qhat, rhat);
        tooBig := false;
      } else {
        tooBig := TestDigit(h, uj2, v1, v2, qhat, rhat, u01, u012, v12);
      }
    }
  }

  lemma StepDown(q: nat, v: nat)
    requires q > 0
    ensures (q - 1) * v == q * v - v
  {}

  // The loop condition of D3, as the wrapping arithmetic computes it.
  method TestDigit(h: nat, uj2: nat, v1: nat, v2: nat, qhat: nat, rhat: nat,
                   ghost u01: nat, ghost u012: nat, ghost v12: nat)
    returns (tooBig: bool)
    requires uj2 < Base(h) && v2 < Base(h) && qhat < Base(h) && rhat < Base(h)
    requires qhat * v1 + rhat == u01 && u012 == u01 * Base(h) + uj2 && v12 == v1 * Base(h) + v2
    ensures tooBig <==> qhat * v12 > u012
  {
    WordIsTwoHalves(h);
    CombineIsTwoDigits(h, rhat, uj2);
    DigitProduct(Base(h), v2, qhat);
    SmallMod(v2 * qhat, Base(2 * h));
    QhatTest(Base(h), u01, uj2, v1, v2, qhat, rhat);
    tooBig := Wrap(h, v2 * qhat) > Combine(h, rhat, uj2);
  }

  lemma DigitProduct(B: nat, x: nat, y: nat)
    requires x < B && y < B
    ensures 0 <= x * y <= (B - 1) * (B - 1)
    ensures x * y < B * B
  {
    MulMono(x, B - 1, y);
    MulMono(y, B - 1, B - 1);
    MulPos(x, y);
    MulDist(B, -1, B - 1);
    MulDist(B, -1, B);
  }

  // The quotient digit that belongs to a window w of n + 1 digits and a divisor v of n digits
  // is the trial digit or the trial digit less one.
  lemma EstimateIsClose(B: nat, w: seq<nat>, v: seq<nat>, qhat: nat)
    requires B >= 2 && |v| >= 2 && |w| == |v| + 1
    requires AreDigits(B, w) && AreDigits(B, v) && v[0] > 0
    requires Val(B, w) < B * Val(B, v)
    requires qhat == TrialDigit(B, w[0], w[1], w[2], v[0], v[1])
    ensures Val(B, w) < (qhat + 1) * Val(B, v)
    ensures qhat > 0 ==> (qhat - 1) * Val(B, v) <= Val(B, w)
  {
    SplitThree(B, w);
    SplitTwo(B, v);
    assert B <= TwoDigits(B, v[0], v[1]) by {
      MulAtLeast(v[0], B);
    }
    TrialDigitIsClose(B, Pow(B, |v| - 2), TwoDigits(B, TwoDigits(B, w[0], w[1]), w[2]), Val(B, w[3..]),
                      TwoDigits(B, v[0], v[1]), Val(B, v[2..]), qhat, Val(B, w), Val(B, v));
  }

  lemma TrialDigitIsClose(B: nat, P: nat, u012: nat, wr: nat, v12: nat, vr: nat, qhat: nat, w: nat, v: nat)
    requires wr < P && vr < P && 0 < B <= v12
    requires qhat == Min(u012 / v12, B - 1)
    requires w == u012 * P + wr && v == v12 * P + vr
    requires w < B * v
    ensures w < (qhat + 1) * v
    ensures qhat > 0 ==> (qhat - 1) * v <= w
  {
    DivMod(u012, v12);
    if qhat < B - 1 {
      MulDist(qhat, 1, v12);
      DigitTooBig(P, u012, wr, v12, vr, qhat + 1);
    }
    if qhat > 0 {
      MulMono(qhat, u012 / v12, v12);
      DigitNotFar(P, u012, wr, v12, vr, qhat);
    }
  }

  lemma SplitTwo(B: nat, v: seq<nat>)
    requires |v| >= 2 && AreDigits(B, v)
    ensures Val(B, v) == TwoDigits(B, v[0], v[1]) * Pow(B, |v| - 2) + Val(B, v[2..])
    ensures Val(B, v[2..]) < Pow(B, |v| - 2)
  {
    ValBound(B, v[2..]);
    assert v == v[..2] + v[2..];
    ValConcat(B, v[..2], v[2..]);
    assert v[..2] == [v[0]] + [v[1]];
    ValAppend(B, [v[0]], v[1]);
    ValOne(B, v[0]);
  }

  lemma SplitThree(B: nat, w: seq<nat>)
    requires |w| >= 3 && AreDigits(B, w)
    ensures Val(B, w) == TwoDigits(B, TwoDigits(B, w[0], w[1]), w[2]) * Pow(B, |w| - 3) + Val(B, w[3..])
    ensures Val(B, w[3..]) < Pow(B, |w| - 3)
  {
    ValBound(B, w[3..]);
    assert w == w[..3] + w[3..];
    ValConcat(B, w[..3], w[3..]);
    assert w[..3] == w[..2] + [w[2]];
    ValAppend(B, w[..2], w[2]);
    assert w[..2] == [w[0]] + [w[1]];
    ValAppend(B, [w[0]], w[1]);
    ValOne(B, w[0]);
  }

  lemma DigitTooBig(P: nat, u012: nat, wr: nat, v12: nat, vr: nat, q: nat)
    requires wr < P && q * v12 > u012
    ensures u012 * P + wr < q * (v12 * P + vr)
  {
    MulMono(u012 + 1, q * v12, P);
    MulDist(u012, 1, P);
    MulDist(v12 * P, vr, q);
    MulAssoc(q, v12, P);
    MulPos(q, vr);
  }

  lemma DigitNotFar(P: nat, u012: nat, wr: nat, v12: nat, vr: nat, q: nat)
    requires vr < P && 0 < q && q - 1 <= v12 && q * v12 <= u012
    ensures (q - 1) * (v12 * P + vr) <= u012 * P + wr
  {
    MulDist(v12, 1, P);
    MulMono(v12 * P + vr, (v12 + 1) * P, q - 1);
    MulAssoc(q - 1, v12 + 1, P);
    MulDist(q, -1, v12 + 1);
    MulDist(v12, 1, q);
    MulMono((q - 1) * (v12 + 1), u012, P);
  }

  // ---------------------------------------------------------------- D4

  // One digit of multiply-and-subtract: y is the wrapped difference, the digit kept is its
  // low half and the borrow handed on is (B - high half) masked to a digit.
  function SubDigit(h: nat, x: nat, w: nat, qhat: nat, t: nat): (nat, nat) {
    var y := Wrap(h, x - w * qhat - t);
    (LHalf(h, y), LHalf(h, Wrap(h, Base(h) - HHalf(h, y))))
  }

  lemma BorrowIsExact(h: nat, x: nat, w: nat, qhat: nat, t: nat)
    requires h > 0 && x < Base(h) && w < Base(h) && qhat < Base(h) && t < Base(h)
    ensures SubDigit(h, x, w, qhat, t).0 < Base(h) && SubDigit(h, x, w, qhat, t).1 < Base(h)
    ensures x + SubDigit(h, x, w, qhat, t).1 * Base(h) == w * qhat + t + SubDigit(h, x, w, qhat, t).0
  {
    var B, p, y := Base(h), w * qhat, Wrap(h, x - w * qhat - t);
    WordIsTwoHalves(h);
    DigitProduct(B, w, qhat);
    HalfBound(B, y);
    MulMono(2, B, B);
    SmallMod(B - y / B, B * B);
    LHalfIsMod(h, y);
    LHalfIsMod(h, B - y / B);
    BorrowDigit(B, x, p, t, y);
  }

  lemma HalfBound(B: nat, y: nat)
    requires B > 0 && y < B * B
    ensures 0 <= y / B < B
  {
    DivMod(y, B);
    if y / B >= B {
      MulMono(B, y / B, B);
    }
  }

  lemma BorrowDigit(B: nat, x: nat, p: nat, t: nat, y: nat)
    requires B > 1 && x < B && t < B && p <= (B - 1) * (B - 1)
    requires y == (x - p - t) % (B * B) && y / B < B
    ensures x + ((B - y / B) % B) * B == p + t + y % B
  {
    var z := x - p - t;
    MulDist(B, -1, B - 1);
    MulDist(B, -1, B);
    assert z >= -(B * B) + B;
    DivMod(y, B);
    if z >= 0 {
      MulAtLeast(B, B);
      SmallMod(z, B * B);
      SmallMod(z, B);
      ModShift(0, B, 1);
      SmallMod(0, B);
    } else {
      BorrowNeeded(B, x, p, t, y);
    }
  }

  lemma BorrowNeeded(B: nat, x: nat, p: nat, t: nat, y: nat)
    requires B > 1 && y == (x - p - t) % (B * B) && y / B < B
    requires -(B * B) + B <= x - p - t < 0
    ensures x + ((B - y / B) % B) * B == p + t + y % B
  {
    var z := x - p - t;
    ModShift(z, B * B, 1);
    SmallMod(z + B * B, B * B);
    assert y == z + B * B;
    DivMod(y, B);
    if y / B <= 0 {
      MulMono(y / B, 0, B);
      assert false;
    }
    SmallMod(B - y / B, B);
    MulDist(B, -(y / B), B);
  }

  // The loop of D4 over n digits: the digits it leaves and the borrow still due.
  function MulSub(h: nat, xs: seq<nat>, vs: seq<nat>, qhat: nat): (r: (seq<nat>, nat))
    requires |xs| == |vs|
    ensures |r.0| == |xs|
  {
    if |xs| == 0 then ([], 0)
    else
      var (ds, t) := MulSub(h, xs[1..], vs[1..], qhat);
      var (d, t') := SubDigit(h, xs[0], vs[0], qhat, t);
      ([d] + ds, t')
  }

  lemma {:induction false} MulSubValue(h: nat, xs: seq<nat>, vs: seq<nat>, qhat: nat)
    requires h > 0 && |xs| == |vs| && qhat < Base(h)
    requires AreDigits(Base(h), xs) && AreDigits(Base(h), vs)
    ensures AreDigits(Base(h), MulSub(h, xs, vs, qhat).0)
    ensures MulSub(h, xs, vs, qhat).1 < Base(h)
    ensures Val(Base(h), xs) + MulSub(h, xs, vs, qhat).1 * Pow(Base(h), |vs|)
         == qhat * Val(Base(h), vs) + Val(Base(h), MulSub(h, xs, vs, qhat).0)
  {
    if |xs| != 0 {
      var B := Base(h);
      MulSubValue(h, xs[1..], vs[1..], qhat);
      var (ds, t) := MulSub(h, xs[1..], vs[1..], qhat);
      var (d, t') := SubDigit(h, xs[0], vs[0], qhat, t);
      BorrowIsExact(h, xs[0], vs[0], qhat, t);
      assert xs == [xs[0]] + xs[1..] && vs == [vs[0]] + vs[1..];
      MulSubStep(B, xs[0], xs[1..], vs[0], vs[1..], d, ds, qhat, t, t');
    }
  }

  lemma MulSubStep(B: nat, x: nat, xs: seq<nat>, w: nat, vs: seq<nat>, d: nat, ds: seq<nat>, qhat: nat, t: nat, t': nat)
    requires |xs| == |vs| == |ds|
    requires Val(B, xs) + t * Pow(B, |vs|) == qhat * Val(B, vs) + Val(B, ds)
    requires x + t' * B == w * qhat + t + d
    ensures Val(B, [x] + xs) + t' * Pow(B, |[w] + vs|) == qhat * Val(B, [w] + vs) + Val(B, [d] + ds)
  {
    ValCons(B, x, xs);
    ValCons(B, w, vs);
    ValCons(B, d, ds);
    SubtractArith(B, Pow(B, |vs|), x, Val(B, xs), w, Val(B, vs), d, Val(B, ds), qhat, t, t');
  }

  lemma SubtractArith(B: nat, p: nat, x: nat, xs: nat, w: nat, vs: nat, d: nat, ds: nat, qhat: nat, t: nat, t': nat)
    requires xs + t * p == qhat * vs + ds
    requires x + t' * B == w * qhat + t + d
    ensures (x * p + xs) + t' * (B * p) == qhat * (w * p + vs) + (d * p + ds)
  {
    MulDist(x, t' * B, p);
    MulAssoc(t', B, p);
    MulDist(w * qhat + t, d, p);
    MulDist(w * qhat, t, p);
    MulDist(w * p, vs, qhat);
    assert (w * qhat) * p == qhat * (w * p) by {
      MulComm(w, qhat);
      MulAssoc(qhat, w, p);
    }
  }

  // All of D4 on a window of n + 1 digits, with D5's borrow test.
  function SubtractWindow(h: nat, w: seq<nat>, v: seq<nat>, qhat: nat): (r: (seq<nat>, bool))
    requires |w| == |v| + 1
    ensures |r.0| == |w|
  {
    var (ds, t) := MulSub(h, w[1..], v, qhat);
    var y := Wrap(h, w[0] as int - t as int);
    ([LHalf(h, y)] + ds, HHalf(h, y) != 0)
  }

  // There is a borrow exactly when qhat times the divisor exceeds the window.
  lemma SubtractWindowValue(h: nat, w: seq<nat>, v: seq<nat>, qhat: nat, out: seq<nat>, borrow: bool)
    requires h > 0 && |w| == |v| + 1 && qhat < Base(h)
    requires AreDigits(Base(h), w) && AreDigits(Base(h), v)
    requires SubtractWindow(h, w, v, qhat) == (out, borrow)
    ensures AreDigits(Base(h), out)
    ensures Val(Base(h), w) + (if borrow then Pow(Base(h), |w|) else 0) == qhat * Val(Base(h), v) + Val(Base(h), out)
  {
    hide Wrap, HHalf, LHalf, Base, MulSub, Val, Pow;
    assert w == [w[0]] + w[1..];
    SubtractTop(h, w[0], w[1..], v, qhat, MulSub(h, w[1..], v, qhat).0, MulSub(h, w[1..], v, qhat).1, out, borrow);
  }

  lemma SubtractTop(h: nat, x: nat, xs: seq<nat>, v: seq<nat>, qhat: nat, ds: seq<nat>, t: nat, out: seq<nat>,
        borrow: bool)
    requires h > 0 && |xs| == |v| && x < Base(h) && qhat < Base(h)
    requires AreDigits(Base(h), xs) && AreDigits(Base(h), v)
    requires (ds, t) == MulSub(h, xs, v, qhat)
    requires out == [LHalf(h, Wrap(h, x as int - t as int))] + ds
             && borrow == (HHalf(h, Wrap(h, x as int - t as int)) != 0)
    ensures AreDigits(Base(h), out)
    ensures Val(Base(h), [x] + xs) + (if borrow then Pow(Base(h), |xs| + 1)
            else 0) == qhat * Val(Base(h), v) + Val(Base(h), out)
  {
    hide Wrap, HHalf, LHalf, Base, Val, Pow;
    MulSubValue(h, xs, v, qhat);
    TopDigit(h, x, t, Wrap(h, x as int - t as int));
    TopStep(Base(h), x, xs, v, out[0], ds, qhat, t, if borrow then 1 else 0);
  }

  lemma TopStep(B: nat, x: nat, xs: seq<nat>, vs: seq<nat>, d: nat, ds: seq<nat>, qhat: nat, t: nat, b: nat)
    requires |xs| == |vs| == |ds| && b <= 1
    requires Val(B, xs) + t * Pow(B, |vs|) == qhat * Val(B, vs) + Val(B, ds)
    requires x + b * B == t + d
    ensures Val(B, [x] + xs) + (if b == 1 then Pow(B, |xs| + 1) else 0) == qhat * Val(B, vs) + Val(B, [d] + ds)
  {
    ValCons(B, x, xs);
    ValCons(B, d, ds);
    TopArith(B, Pow(B, |vs|), x, Val(B, xs), qhat * Val(B, vs), d, Val(B, ds), t, b);
  }

  lemma TopArith(B: nat, p: nat, x: nat, xs: nat, qv: int, d: nat, ds: nat, t: nat, b: nat)
    requires b <= 1 && xs + t * p == qv + ds && x + b * B == t + d
    ensures (x * p + xs) + (if b == 1 then B * p else 0) == qv + (d * p + ds)
  {
    MulDist(x, b * B, p);
    MulDist(t, d, p);
    MulAssoc(b, B, p);
  }

  // The leading digit of the window only takes the borrow.
  lemma TopDigit(h: nat, x: nat, t: nat, y: nat)
    requires h > 0 && x < Base(h) && t < Base(h) && y == Wrap(h, x - t)
    ensures LHalf(h, y) < Base(h)
    ensures x + (if HHalf(h, y) != 0 then 1 else 0) * Base(h) == t + LHalf(h, y)
  {
    var B := Base(h);
    WordIsTwoHalves(h);
    MulMono(2, B, B);
    LHalfIsMod(h, y);
    if x >= t {
      SmallMod(x - t, B * B);
      SmallMod(x - t, B);
    } else {
      var z: nat := x - t + B;
      ModShift(x - t, B * B, 1);
      SmallMod(x - t + B * B, B * B);
      MulDist(B, -1, B);
      DivModUnique(y, B, B - 1, z);
    }
  }

  lemma MulSubCons(h: nat, x: nat, xs: seq<nat>, w: nat, vs: seq<nat>, qhat: nat, ds: seq<nat>, t: nat)
    requires |xs| == |vs| && MulSub(h, xs, vs, qhat) == (ds, t)
    ensures MulSub(h, [x] + xs, [w] + vs, qhat)
         == ([SubDigit(h, x, w, qhat, t).0] + ds, SubDigit(h, x, w, qhat, t).1)
  {
    assert ([x] + xs)[1..] == xs && ([w] + vs)[1..] == vs;
  }

  lemma MulSubNil(h: nat, qhat: nat)
    ensures MulSub(h, [], [], qhat) == ([], 0)
  {}

  // The loop of D4, right to left; t is the borrow it hands to the leading digit.
  method SubtractDigits(h: nat, u: array<nat>, o: nat, v: array<nat>, vo: nat, n: nat, qhat: nat)
    returns (t: nat, ghost ds: seq<nat>)
    requires u != v && o + n < u.Length && vo + n < v.Length
    modifies u
    ensures (ds, t) == MulSub(h, old(u[o + 1..o + n + 1]), v[vo + 1..vo + n + 1], qhat)
    ensures |ds| == n && forall k | 0 <= k < n :: u[o + 1 + k] == ds[k]
    ensures forall k | 0 <= k < u.Length && !(o < k <= o + n) :: u[k] == old(u[k])
  {
    hide Wrap, HHalf, LHalf, BitAnd, Base, MulSub;
    MulSubNil(h, qhat);
    assert u[o + n + 1..o + n + 1] == [] && v[vo + n + 1..vo + n + 1] == [];
    ghost var s, z := u[..], v[..];
    t, ds := 0, [];
    var i := n;
    while i > 0
      invariant 0 <= i <= n
      invariant forall k | 0 <= k < u.Length && !(o + i < k <= o + n) :: u[k] == s[k]
      invariant |ds| == n - i && forall k | 0 <= k < n - i :: u[o + i + 1 + k] == ds[k]
      invariant (ds, t) == MulSub(h, s[o + i + 1..o + n + 1], z[vo + i + 1..vo + n + 1], qhat)
    {
      MulSubCons(h, u[o + i], s[o + i + 1..o + n + 1], v[vo + i], z[vo + i + 1..vo + n + 1], qhat, ds, t);
      assert s[o + i..o + n + 1] == [u[o + i]] + s[o + i + 1..o + n + 1];
      assert z[vo + i..vo + n + 1] == [v[vo + i]] + z[vo + i + 1..vo + n + 1];
      var y := Wrap(h, u[o + i] as int - v[vo + i] as int * qhat - t as int);
      u[o + i] := LHalf(h, y);
      t := LHalf(h, Wrap(h, Base(h) - HHalf(h, y)));
      ds := [u[o + i]] + ds;
      i := i - 1;
    }
  }

  // D4: subtract qhat times the divisor from the window u[o..o + n].
  method MultiplySubtract(h: nat, u: array<nat>, o: nat, v: array<nat>, vo: nat, n: nat, qhat: nat)
    returns (borrow: bool)
    requires u != v && o + n < u.Length && vo + n < v.Length
    modifies u
    ensures borrow == SubtractWindow(h, old(u[o..o + n + 1]), v[vo + 1..vo + n + 1], qhat).1
    ensures u[..] == old(u[..o]) + SubtractWindow(h, old(u[o..o + n + 1]), v[vo + 1..vo + n + 1], qhat).0
                   + old(u[o + n + 1..])
  {
    hide Wrap, HHalf, LHalf, Base, MulSub;
    ghost var w := u[o..o + n + 1];
    assert w[0] == u[o] && w[1..] == u[o + 1..o + n + 1];
    var t, ds := SubtractDigits(h, u, o, v, vo, n, qhat);
    assert u[o] == w[0];
    var y := Wrap(h, u[o] as int - t as int);
    u[o] := LHalf(h, y);
    borrow := HHalf(h, y) != 0;
    assert u[..] == old(u[..o]) + ([u[o]] + ds) + old(u[o + n + 1..]);
  }

  // ---------------------------------------------------------------- D6

  // The loop of D6 over n digits: the digits it leaves and the carry out.
  function AddDigits(h: nat, xs: seq<nat>, vs: seq<nat>): (r: (seq<nat>, nat))
    requires |xs| == |vs|
    ensures |r.0| == |xs|
  {
    if |xs| == 0 then ([], 0)
    else
      var (ds, t) := AddDigits(h, xs[1..], vs[1..]);
      var y := Wrap(h, t + xs[0] + vs[0]);
      ([LHalf(h, y)] + ds, HHalf(h, y))
  }

  lemma CarryIsExact(h: nat, t: nat, x: nat, w: nat, y: nat)
    requires h > 0 && t <= 1 && x < Base(h) && w < Base(h) && y == Wrap(h, t + x + w)
    ensures HHalf(h, y) <= 1 && LHalf(h, y) < Base(h)
    ensures t + x + w == HHalf(h, y) * Base(h) + LHalf(h, y)
  {
    var B := Base(h);
    WordIsTwoHalves(h);
    MulMono(2, B, B);
    SmallMod(t + x + w, B * B);
    LHalfIsMod(h, y);
    DivMod(y, B);
    if y / B >= 2 {
      MulMono(2, y / B, B);
    }
  }

  lemma {:induction false} AddDigitsValue(h: nat, xs: seq<nat>, vs: seq<nat>)
    requires h > 0 && |xs| == |vs| && AreDigits(Base(h), xs) && AreDigits(Base(h), vs)
    ensures AreDigits(Base(h), AddDigits(h, xs, vs).0) && AddDigits(h, xs, vs).1 <= 1
    ensures Val(Base(h), xs) + Val(Base(h), vs)
         == AddDigits(h, xs, vs).1 * Pow(Base(h), |xs|) + Val(Base(h), AddDigits(h, xs, vs).0)
  {
    if |xs| != 0 {
      var (ds, t) := AddDigits(h, xs[1..], vs[1..]);
      AddDigitsValue(h, xs[1..], vs[1..]);
      var y := Wrap(h, t + xs[0] + vs[0]);
      CarryIsExact(h, t, xs[0], vs[0], y);
      assert xs == [xs[0]] + xs[1..] && vs == [vs[0]] + vs[1..];
      AddStep(Base(h), xs[0], xs[1..], vs[0], vs[1..], LHalf(h, y), ds, t, HHalf(h, y));
    }
  }

  lemma AddStep(B: nat, x: nat, xs: seq<nat>, w: nat, vs: seq<nat>, d: nat, ds: seq<nat>, t: nat, t': nat)
    requires |xs| == |vs| == |ds|
    requires Val(B, xs) + Val(B, vs) == t * Pow(B, |xs|) + Val(B, ds)
    requires t + x + w == t' * B + d
    ensures Val(B, [x] + xs) + Val(B, [w] + vs) == t' * Pow(B, |[x] + xs|) + Val(B, [d] + ds)
  {
    ValCons(B, x, xs);
    ValCons(B, w, vs);
    ValCons(B, d, ds);
    AddArith(B, Pow(B, |vs|), x, Val(B, xs), w, Val(B, vs), d, Val(B, ds), t, t');
  }

  lemma AddArith(B: nat, p: nat, x: nat, xs: nat, w: nat, vs: nat, d: nat, ds: nat, t: nat, t': nat)
    requires xs + vs == t * p + ds && t + x + w == t' * B + d
    ensures (x * p + xs) + (w * p + vs) == t' * (B * p) + (d * p + ds)
  {
    MulDist(t + x, w, p);
    MulDist(t, x, p);
    MulDist(t' * B, d, p);
    MulAssoc(t', B, p);
  }

  // All of D6 on a window of n + 1 digits; the carry out of the leading digit is dropped.
  function AddWindow(h: nat, w: seq<nat>, v: seq<nat>): (r: seq<nat>)
    requires |w| == |v| + 1
    ensures |r| == |w|
  {
    var (ds, t) := AddDigits(h, w[1..], v);
    [LHalf(h, Wrap(h, w[0] + t))] + ds
  }

  lemma AddWindowValue(h: nat, w: seq<nat>, v: seq<nat>) returns (carry: nat)
    requires h > 0 && |w| == |v| + 1 && AreDigits(Base(h), w) && AreDigits(Base(h), v)
    ensures AreDigits(Base(h), AddWindow(h, w, v)) && carry <= 1
    ensures Val(Base(h), w) + Val(Base(h), v)
         == (if carry == 1 then Pow(Base(h), |w|) else 0) + Val(Base(h), AddWindow(h, w, v))
  {
    var B := Base(h);
    var (ds, t) := AddDigits(h, w[1..], v);
    AddDigitsValue(h, w[1..], v);
    var y := Wrap(h, w[0] + t);
    CarryIsExact(h, t, w[0], 0, y);
    carry := HHalf(h, y);
    assert w == [w[0]] + w[1..];
    AddTop(B, w[0], w[1..], v, LHalf(h, y), ds, t, carry);
  }

  lemma AddTop(B: nat, x: nat, xs: seq<nat>, vs: seq<nat>, d: nat, ds: seq<nat>, t: nat, c: nat)
    requires |xs| == |vs| == |ds| && c <= 1
    requires Val(B, xs) + Val(B, vs) == t * Pow(B, |xs|) + Val(B, ds)
    requires t + x == c * B + d
    ensures Val(B, [x] + xs) + Val(B, vs) == (if c == 1 then Pow(B, |xs| + 1) else 0) + Val(B, [d] + ds)
  {
    ValCons(B, x, xs);
    ValCons(B, d, ds);
    AddTopArith(B, Pow(B, |xs|), x, Val(B, xs), Val(B, vs), d, Val(B, ds), t, c);
  }

  lemma AddTopArith(B: nat, p: nat, x: nat, xs: nat, vs: nat, d: nat, ds: nat, t: nat, c: nat)
    requires c <= 1 && xs + vs == t * p + ds && t + x == c * B + d
    ensures (x * p + xs) + vs == (if c == 1 then B * p else 0) + (d * p + ds)
  {
    MulDist(t, x, p);
    MulDist(c * B, d, p);
    MulAssoc(c, B, p);
  }

  lemma AddDigitsCons(h: nat, x: nat, xs: seq<nat>, w: nat, vs: seq<nat>, ds: seq<nat>, t: nat)
    requires |xs| == |vs| && AddDigits(h, xs, vs) == (ds, t)
    ensures AddDigits(h, [x] + xs, [w] + vs)
         == ([LHalf(h, Wrap(h, t + x + w))] + ds, HHalf(h, Wrap(h, t + x + w)))
  {
    assert ([x] + xs)[1..] == xs && ([w] + vs)[1..] == vs;
  }

  lemma AddDigitsNil(h: nat)
    ensures AddDigits(h, [], []) == ([], 0)
  {}

  // The loop of D6, right to left; t is the carry it hands to the leading digit.
  method AddLow(h: nat, u: array<nat>, o: nat, v: array<nat>, vo: nat, n: nat)
    returns (t: nat, ghost ds: seq<nat>)
    requires u != v && o + n < u.Length && vo + n < v.Length
    modifies u
    ensures (ds, t) == AddDigits(h, old(u[o + 1..o + n + 1]), v[vo + 1..vo + n + 1])
    ensures |ds| == n && forall k | 0 <= k < n :: u[o + 1 + k] == ds[k]
    ensures forall k | 0 <= k < u.Length && !(o < k <= o + n) :: u[k] == old(u[k])
  {
    hide Wrap, HHalf, LHalf, Base, AddDigits;
    AddDigitsNil(h);
    assert u[o + n + 1..o + n + 1] == [] && v[vo + n + 1..vo + n + 1] == [];
    ghost var s, z := u[..], v[..];
    t, ds := 0, [];
    var i := n;
    while i > 0
      invariant 0 <= i <= n
      invariant forall k | 0 <= k < u.Length && !(o + i < k <= o + n) :: u[k] == s[k]
      invariant |ds| == n - i && forall k | 0 <= k < n - i :: u[o + i + 1 + k] == ds[k]
      invariant (ds, t) == AddDigits(h, s[o + i + 1..o + n + 1], z[vo + i + 1..vo + n + 1])
    {
      AddDigitsCons(h, u[o + i], s[o + i + 1..o + n + 1], v[vo + i], z[vo + i + 1..vo + n + 1], ds, t);
      assert s[o + i..o + n + 1] == [u[o + i]] + s[o + i + 1..o + n + 1];
      assert z[vo + i..vo + n + 1] == [v[vo + i]] + z[vo + i + 1..vo + n + 1];
      var y := Wrap(h, t + u[o + i] + v[vo + i]);
      u[o + i] := LHalf(h, y);
      t := HHalf(h, y);
      ds := [u[o + i]] + ds;
      i := i - 1;
    }
  }

  // D6: add the divisor back into the window.
  method AddBack(h: nat, u: array<nat>, o: nat, v: array<nat>, vo: nat, n: nat)
    requires u != v && o + n < u.Length && vo + n < v.Length
    modifies u
    ensures u[..] == old(u[..o]) + AddWindow(h, old(u[o..o + n + 1]), v[vo + 1..vo + n + 1]) + old(u[o + n + 1..])
  {
    hide Wrap, HHalf, LHalf, Base, AddDigits;
    ghost var w := u[o..o + n + 1];
    assert w[0] == u[o] && w[1..] == u[o + 1..o + n + 1];
    var t, ds := AddLow(h, u, o, v, vo, n);
    assert u[o] == w[0];
    u[o] := LHalf(h, Wrap(h, u[o] + t));
    assert u[..] == old(u[..o]) + ([u[o]] + ds) + old(u[o + n + 1..]);
  }

  // ---------------------------------------------------------------- one step of D

  // What one turn of the main loop does to a window: D3, D4 and, when there is a borrow, D6.
  function StepWindow(h: nat, w: seq<nat>, v: seq<nat>, qhat: nat): (r: (seq<nat>, int))
    requires |w| == |v| + 1
    ensures |r.0| == |w|
  {
    var (out, borrow) := SubtractWindow(h, w, v, qhat);
    if borrow then (AddWindow(h, out, v), qhat - 1) else (out, qhat)
  }

  /**
   One turn of the main loop divides: the digit it stores is the true quotient digit, the
   window is left holding the remainder, and a borrow happens exactly when the trial digit
   was one too big.
   */
  lemma StepDivides(h: nat, w: seq<nat>, v: seq<nat>, qhat: nat)
    requires h > 0 && |v| >= 2 && |w| == |v| + 1
    requires AreDigits(Base(h), w) && AreDigits(Base(h), v) && v[0] > 0
    requires Val(Base(h), w) < Base(h) * Val(Base(h), v)
    requires qhat == TrialDigit(Base(h), w[0], w[1], w[2], v[0], v[1])
    ensures SubtractWindow(h, w, v, qhat).1 <==> qhat * Val(Base(h), v) > Val(Base(h), w)
    ensures AreDigits(Base(h), StepWindow(h, w, v, qhat).0)
    ensures 0 <= StepWindow(h, w, v, qhat).1 < Base(h)
    ensures Val(Base(h), StepWindow(h, w, v, qhat).0) < Val(Base(h), v)
    ensures Val(Base(h), w) == StepWindow(h, w, v, qhat).1 * Val(Base(h), v) + Val(Base(h), StepWindow(h, w, v, qhat).0)
  {
    hide SubtractWindow, AddWindow, Val, Pow, TrialDigit;
    var B := Base(h);
    assert qhat < B by {
      TrialDigitBound(B, w[0], w[1], w[2], v[0], v[1]);
    }
    EstimateIsClose(B, w, v, qhat);
    var r := SubtractWindow(h, w, v, qhat);
    SubtractWindowValue(h, w, v, qhat, r.0, r.1);
    ValBound(B, r.0);
    var out, carry := r.0, 0;
    if r.1 {
      carry := AddWindowValue(h, r.0, v);
      out := AddWindow(h, r.0, v);
      ValBound(B, out);
    }
    StepArith(Val(B, w), Val(B, v), Pow(B, |w|), qhat, qhat * Val(B, v), Val(B, r.0), r.1, carry, Val(B, out));
  }

  lemma TrialDigitBound(B: nat, u0: nat, u1: nat, u2: nat, v1: nat, v2: nat)
    requires B > 0 && v1 > 0
    ensures TrialDigit(B, u0, u1, u2, v1, v2) < B
  {}

  lemma StepArith(w: nat, v: nat, p: nat, qhat: nat, qv: int, out: nat, borrow: bool, carry: nat, final: nat)
    requires qv == qhat * v && w < (qhat + 1) * v && (qhat > 0 ==> (qhat - 1) * v <= w)
    requires w + (if borrow then p else 0) == qv + out && out < p
    requires !borrow ==> final == out
    requires borrow ==> out + v == (if carry == 1 then p else 0) + final && carry <= 1 && final < p
    ensures borrow <==> qv > w
    ensures final < v
    ensures borrow ==> qhat > 0
    ensures w == (if borrow then qhat - 1 else qhat) * v + final
  {
    MulDist(qhat, 1, v);
    if borrow {
      if qhat == 0 {
        assert false;
      }
      StepDown(qhat, v);
    }
  }

  // The leading window digit never exceeds the leading divisor digit.
  lemma WindowTop(B: nat, w: seq<nat>, v: seq<nat>)
    requires |v| >= 1 && |w| == |v| + 1 && AreDigits(B, w) && AreDigits(B, v)
    requires Val(B, w[..|v|]) < Val(B, v)
    ensures w[0] <= v[0]
    ensures Val(B, w) < B * Val(B, v)
  {
    assert Val(B, w) == Val(B, w[..|v|]) * B + w[|v|];
    hide Val;
    LeadingDigitBound(B, w[..|v|], v);
    MulMono(Val(B, w[..|v|]) + 1, Val(B, v), B);
    MulDist(Val(B, w[..|v|]), 1, B);
  }

  // One turn of the main loop, on the arrays.
  method DivideDigit(h: nat, u: array<nat>, o: nat, v: array<nat>, vo: nat, n: nat)
    returns (q: nat, ghost w: seq<nat>)
    requires h > 0 && n >= 2 && u != v && o + n < u.Length && vo + n < v.Length
    requires AreDigits(Base(h), u[..]) && AreDigits(Base(h), v[..]) && 2 * v[vo + 1] >= Base(h)
    requires Val(Base(h), u[o..o + n]) < Val(Base(h), v[vo + 1..vo + n + 1])
    modifies u
    ensures q < Base(h) && |w| == n + 1 && AreDigits(Base(h), w)
    ensures u[..] == old(u[..o]) + w + old(u[o + n + 1..])
    ensures Val(Base(h), w) < Val(Base(h), v[vo + 1..vo + n + 1])
    ensures Val(Base(h), old(u[o..o + n + 1])) == q * Val(Base(h), v[vo + 1..vo + n + 1]) + Val(Base(h), w)
  {
    hide Val, Pow, SubtractWindow, AddWindow, TrialDigit;
    ghost var w0, d := u[o..o + n + 1], v[vo + 1..vo + n + 1];
    assert w0[..n] == u[o..o + n];
    WindowTop(Base(h), w0, d);
    assert w0[0] == u[o] && w0[1] == u[o + 1] && w0[2] == u[o + 2] && d[0] == v[vo + 1] && d[1] == v[vo + 2];
    var qhat, corrections := EstimateDigit(h, u[o], u[o + 1], u[o + 2], v[vo + 1], v[vo + 2]);
    assert corrections <= 2;
    StepDivides(h, w0, d, qhat);
    w := StepWindow(h, w0, d, qhat).0;
    ghost var left, right := u[..o], u[o + n + 1..];
    var borrow := MultiplySubtract(h, u, o, v, vo, n, qhat);
    if borrow {
      assert u[..o] == left && u[o..o + n + 1] == SubtractWindow(h, w0, d, qhat).0 && u[o + n + 1..] == right;
      qhat := qhat - 1;
      AddBack(h, u, o, v, vo, n);
    }
    q := qhat;
  }
}
