/**
 The long long multiplication of the millicode: __lmulq multiplies two ints
 into a long long, __muldi3 multiplies two long longs modulo 2^(4h).
 */
module Multiply {
  import opened Bits
  import opened LongLong

  // LHUP: the low half moved to the upper half of an unsigned int.
  function LHup(h: nat, x: nat): nat {
    ShiftLeft(x, h, 2 * h)
  }

  lemma LHupIsLowHalf(h: nat, x: nat)
    ensures x * Base(h) == HHalf(h, x) * Base(2 * h) + LHup(h, x)
    ensures 0 <= LHup(h, x) < Base(2 * h)
  {
    hide Pow;
    var B := Base(h);
    WordIsTwoHalves(h);
    DivMod(x, B);
    MulDist((x / B) * B, x % B, B);
    MulAssoc(x / B, B, B);
    TwoDigitBound(B, x % B, 0);
    MulPos(x % B, B);
    DivModUnique(x * B, B * B, x / B, (x % B) * B);
  }

  // Two words as one number, and what happens when the upper word wraps.
  lemma HighWordWraps(W: nat, k: int, l: nat)
    requires W > 0 && l < W
    ensures W * W > 0
    ensures (k % W) * W + l == (k * W + l) % (W * W)
  {
    DivMod(k, W);
    MulDist((k / W) * W, k % W, W);
    MulAssoc(k / W, W, W);
    TwoDigitBound(W, k % W, l);
    MulPos(k % W, W);
    MulAtLeast(W, W);
    DivModUnique(k * W + l, W * W, k / W, (k % W) * W + l);
  }

  // prod += x << N, with the carry found by comparing the low words.
  lemma AddShifted(h: nat, W: nat, N: nat, e: int, ph: nat, pl: nat, x: nat, pl': nat, ph': nat)
    requires W == Base(2 * h) && N == W * W && N > 0
    requires ph < W && pl < W && ph * W + pl == e % N
    requires pl' == Wrap(h, pl + LHup(h, x))
    requires ph' == Wrap(h, ph + HHalf(h, x) + (if pl' < pl then 1 else 0))
    ensures ph' < W && pl' < W && ph' * W + pl' == (e + x * Base(h)) % N
  {
    hide Pow, LHup, HHalf;
    LHupIsLowHalf(h, x);
    var up, c := LHup(h, x), if pl' < pl then 1 else 0;
    if pl + up < W {
      SmallMod(pl + up, W);
    } else {
      ModShift(pl + up - W, W, 1);
      SmallMod(pl + up - W, W);
    }
    assert pl + up == pl' + c * W;
    var k := ph + HHalf(h, x) + c;
    HighWordWraps(W, k, pl');
    MulDist(ph + HHalf(h, x), c, W);
    MulDist(ph, HHalf(h, x), W);
    ModAdd(e, x * Base(h), N);
  }

  // prod -= x << N, with the borrow found by comparing the low words.
  lemma SubShifted(h: nat, W: nat, N: nat, e: int, ph: nat, pl: nat, x: nat, pl': nat, ph': nat)
    requires W == Base(2 * h) && N == W * W && N > 0
    requires ph < W && pl < W && ph * W + pl == e % N
    requires pl' == Wrap(h, pl as int - LHup(h, x) as int)
    requires ph' == Wrap(h, ph as int - (HHalf(h, x) + (if pl' > pl then 1 else 0)) as int)
    ensures ph' < W && pl' < W && ph' * W + pl' == (e - x * Base(h)) % N
  {
    hide Pow, LHup, HHalf;
    LHupIsLowHalf(h, x);
    var up, c := LHup(h, x), if pl' > pl then 1 else 0;
    if up <= pl {
      SmallMod(pl - up, W);
    } else {
      ModShift(pl - up, W, 1);
      SmallMod(pl - up + W, W);
    }
    assert pl as int - up == pl' as int - c * W;
    var y: int := HHalf(h, x);
    var k: int := ph - (y + c);
    HighWordWraps(W, k, pl');
    MulDist(ph, -(y + c), W);
    NegMul(y + c, W);
    MulDist(y, c, W);
    ModAdd(e, -(x * Base(h)), N);
  }

  // prod += low, with the carry found by comparing with the addend.
  lemma AddLowWord(h: nat, W: nat, N: nat, e: int, ph: nat, pl: nat, x: nat, pl': nat, ph': nat)
    requires W == Base(2 * h) && N == W * W && N > 0 && x < W
    requires ph < W && pl < W && ph * W + pl == e % N
    requires pl' == Wrap(h, pl + x)
    requires ph' == if pl' < x then Wrap(h, ph + 1) else ph
    ensures ph' < W && pl' < W && ph' * W + pl' == (e + x) % N
  {
    hide Pow;
    if pl + x < W {
      SmallMod(pl + x, W);
      HighWordWraps(W, ph, pl');
      SmallMod(ph, W);
    } else {
      ModShift(pl + x - W, W, 1);
      SmallMod(pl + x - W, W);
      HighWordWraps(W, ph + 1, pl');
      MulDist(ph, 1, W);
    }
    ModAdd(e, x, N);
  }

  // Knuth's regrouping of the product of two two-digit numbers.
  lemma Regroup(B: int, u1: int, u0: int, v1: int, v0: int)
    ensures (u1 * B + u0) * (v1 * B + v0)
         == (u1 * v1) * (B * B) + (u1 * v1) * B + ((u1 - u0) * (v0 - v1)) * B + (u0 * v0) * B + u0 * v0
  {
    calc {
      (u1 * B + u0) * (v1 * B + v0);
      { MulDist(u1 * B, u0, v1 * B + v0); MulDist(v1 * B, v0, u1 * B); MulDist(v1 * B, v0, u0); }
      (u1 * B) * (v1 * B) + (u1 * B) * v0 + u0 * (v1 * B) + u0 * v0;
      { Shuffle(u1, B, v1); MulAssoc(u0, v1, B); SwapLast(u1, B, v0); }
      (u1 * v1) * (B * B) + (u1 * v0) * B + (u0 * v1) * B + u0 * v0;
      { MiddleTerm(u1, u0, v1, v0); MulDist(u1 * v0, u0 * v1, B); MulDist(u1 * v1 + (u1 - u0) * (v0 - v1), u0 * v0, B);
        MulDist(u1 * v1, (u1 - u0) * (v0 - v1), B); }
      (u1 * v1) * (B * B) + (u1 * v1) * B + ((u1 - u0) * (v0 - v1)) * B + (u0 * v0) * B + u0 * v0;
    }
  }

  lemma Shuffle(x: int, b: int, y: int)
    ensures (x * b) * (y * b) == (x * y) * (b * b)
  {
    MulAssoc(x * b, y, b);
    SwapLast(x, b, y);
    MulAssoc(x * y, b, b);
  }

  lemma SwapLast(x: int, b: int, y: int)
    ensures (x * b) * y == (x * y) * b
  {
    MulAssoc(x, b, y);
    MulComm(b, y);
    MulAssoc(x, y, b);
  }

  lemma MiddleTerm(u1: int, u0: int, v1: int, v0: int)
    ensures u1 * v1 + (u1 - u0) * (v0 - v1) + u0 * v0 == u1 * v0 + u0 * v1
  {
    MulDist(u1, -u0, v0 - v1);
    MulDist(v0, -v1, u1);
    MulDist(v0, -v1, -u0);
  }

  // The difference product, by absolute values and a sign.
  lemma SignedMiddle(u1: nat, u0: nat, v1: nat, v0: nat, udiff: nat, vdiff: nat, neg: bool)
    requires udiff == if u1 >= u0 then u1 - u0 else u0 - u1
    requires vdiff == if v0 >= v1 then v0 - v1 else v1 - v0
    requires neg == ((u1 >= u0) != (v0 >= v1))
    ensures (u1 - u0) * (v0 - v1) == if neg then -((udiff * vdiff) as int) else udiff * vdiff
  {
    assert (u1 - u0 == udiff || u1 - u0 == -(udiff as int)) && (v0 - v1 == vdiff || v0 - v1 == -(vdiff as int));
    NegMul(udiff, vdiff);
  }

  lemma NegMul(x: int, y: int)
    ensures (-x) * y == -(x * y) && x * (-y) == -(x * y) && (-x) * (-y) == x * y
  {}

  /**
   __lmulq: the exact product of two unsigned ints, through a signed middle term and four
   carry or borrow tests.
   */
  method LongProduct(h: nat, u: nat, v: nat) returns (hi: nat, lo: nat)
    requires h > 0 && u < Base(2 * h) && v < Base(2 * h)
    ensures hi < Base(2 * h) && lo < Base(2 * h)
    ensures hi * Base(2 * h) + lo == u * v
  {
    hide Pow, BitAnd;
    ghost var B, W := Base(h), Base(2 * h);
    var u1, u0, v1, v0 := HHalf(h, u), LHalf(h, u), HHalf(h, v), LHalf(h, v);
    SplitInt(h, u);
    SplitInt(h, v);
    DigitWord(h, u0, v0);
    var low := Wrap(h, u0 * v0);
    if u1 == 0 && v1 == 0 {
      return 0, low;
    }
    var udiff: nat, vdiff: nat, neg;
    if u1 >= u0 {
      udiff, neg := u1 - u0, false;
    } else {
      udiff, neg := u0 - u1, true;
    }
    if v0 >= v1 {
      vdiff := v0 - v1;
    } else {
      vdiff, neg := v1 - v0, !neg;
    }
    SignedMiddle(u1, u0, v1, v0, udiff, vdiff, neg);
    DigitWord(h, udiff, vdiff);
    var mid := Wrap(h, udiff * vdiff);
    DigitWord(h, u1, v1);
    var high := Wrap(h, u1 * v1);
    hi, lo := Assemble(h, high, mid, low, neg, u * v) by {
      Regroup(B, u1, u0, v1, v0);
      WordIsTwoHalves(h);
      ProductBound(W, u, v);
    }
  }

  lemma SplitInt(h: nat, x: nat)
    requires x < Base(2 * h)
    ensures HHalf(h, x) < Base(h) && LHalf(h, x) < Base(h) && x == HHalf(h, x) * Base(h) + LHalf(h, x)
  {
    hide Pow, BitAnd;
    WordIsTwoHalves(h);
    DivMod(x, Base(h));
    LHalfIsMod(h, x);
    if x / Base(h) >= Base(h) {
      MulMono(Base(h), x / Base(h), Base(h));
    }
  }

  lemma DigitWord(h: nat, x: nat, y: nat)
    requires x < Base(h) && y < Base(h)
    ensures Wrap(h, x * y) == x * y && 0 <= x * y
  {
    hide Pow;
    WordIsTwoHalves(h);
    MulPos(x, y);
    MulMono(x, Base(h) - 1, y);
    MulMono(y, Base(h) - 1, Base(h) - 1);
    MulDist(Base(h), -1, Base(h) - 1);
    MulDist(Base(h), -1, Base(h));
    SmallMod(x * y, Base(2 * h));
  }

  lemma ProductBound(W: nat, u: nat, v: nat)
    requires u < W && v < W
    ensures 0 <= u * v < W * W
  {
    MulPos(u, v);
    MulMono(u, W - 1, v);
    MulMono(v, W, W - 1);
    MulDist(W, -1, W);
  }

  // The tail of __lmulq: assembling the product in two words.
  method Assemble(h: nat, high: nat, mid: nat, low: nat, neg: bool, ghost product: int) returns (prodh: nat, prodl: nat)
    requires high < Base(2 * h) && mid < Base(2 * h) && low < Base(2 * h)
    requires product == high * Base(2 * h) + high * Base(h) + (if neg then -(mid as int)
             else mid) * Base(h) + low * Base(h) + low
    requires 0 <= product < Base(2 * h) * Base(2 * h)
    ensures prodh < Base(2 * h) && prodl < Base(2 * h)
    ensures prodh * Base(2 * h) + prodl == product
  {
    hide Pow, LHup, HHalf, Wrap;
    ghost var B, W := Base(h), Base(2 * h);
    ghost var N := W * W;
    MulAtLeast(W, W);
    StartProduct(h, high);
    ghost var e := high * W + high * B;
    prodh := Wrap(h, high + HHalf(h, high));
    prodl := LHup(h, high);
    var was := prodl;
    ghost var wash := prodh;
    if neg {
      prodl := Wrap(h, prodl as int - LHup(h, mid) as int);
      prodh := Wrap(h, prodh as int - (HHalf(h, mid) + (if prodl > was then 1 else 0)) as int);
      SubShifted(h, W, N, e, wash, was, mid, prodl, prodh);
      NegMul(mid, B);
      e := e - mid * B;
    } else {
      prodl := Wrap(h, prodl + LHup(h, mid));
      prodh := Wrap(h, prodh + HHalf(h, mid) + (if prodl < was then 1 else 0));
      AddShifted(h, W, N, e, wash, was, mid, prodl, prodh);
      e := e + mid * B;
    }
    was, wash := prodl, prodh;
    prodl := Wrap(h, prodl + LHup(h, low));
    prodh := Wrap(h, prodh + HHalf(h, low) + (if prodl < was then 1 else 0));
    AddShifted(h, W, N, e, wash, was, low, prodl, prodh);
    e := e + low * B;
    was, wash := prodl, prodh;
    prodl := Wrap(h, prodl + low);
    if prodl < low {
      prodh := Wrap(h, prodh + 1);
    }
    AddLowWord(h, W, N, e, wash, was, low, prodl, prodh);
    SmallMod(product, N);
  }

  // prod = (high << 2N) + (high << N).
  lemma StartProduct(h: nat, high: nat)
    requires high < Base(2 * h)
    ensures Wrap(h, high + HHalf(h, high)) < Base(2 * h) && LHup(h, high) < Base(2 * h)
    ensures Base(2 * h) * Base(2 * h) > 0
    ensures Wrap(h, high + HHalf(h, high)) * Base(2 * h) + LHup(h, high)
         == (high * Base(2 * h) + high * Base(h)) % (Base(2 * h) * Base(2 * h))
  {
    hide Pow, LHup, HHalf;
    LHupIsLowHalf(h, high);
    HighWordWraps(Base(2 * h), high + HHalf(h, high), LHup(h, high));
    MulDist(high, HHalf(h, high), Base(2 * h));
  }

  // ---------------------------------------------------------------- __muldi3

  // The upper word of the product, computed modulo 2^(2h) from three word products.
  lemma UpperWord(h: nat, W: nat, u1: nat, u0: nat, v1: nat, v0: nat, high: nat, mid: int, lh: nat, ll: nat, ph: nat)
    requires W == Base(2 * h) && ll < W && lh * W + ll == u0 * v0
    requires high == Wrap(h, u1 * v1) && (mid - (u1 - u0) * (v0 - v1)) % W == 0
    requires ph == Wrap(h, high + mid + ll + lh)
    ensures W * W > 0
    ensures ph * W + ll == ((u1 * W + u0) * (v1 * W + v0)) % (W * W)
  {
    hide Pow;
    var t := (u1 - u0) * (v0 - v1);
    var k, g := (mid - t) / W, (u1 * v1) / W;
    DivMod(mid - t, W);
    DivMod(u1 * v1, W);
    MiddleTerm(u1, u0, v1, v0);
    CrossTerms(W, u1 * v1, u1 * v0, u0 * v1, u0 * v0, t, high, g, mid, k, lh, ll);
    FoldUpper(W, u1, u0, v1, v0, u1 * v0 + u0 * v1 + lh, k - g - lh, high + mid + ll + lh, lh, ll);
  }

  // The word sum is the cross terms, plus the carry out of the low product, plus multiples of W.
  lemma CrossTerms(W: int, p11: int, p10: int, p01: int, p00: int, t: int, high: int, g: int, mid: int, k: int,
        lh: int, ll: int)
    requires p11 + t + p00 == p10 + p01 && p11 == g * W + high && mid - t == k * W && lh * W + ll == p00
    ensures high + mid + ll + lh == (p10 + p01 + lh) + (k - g - lh) * W
  {
    MulDist(k, -g, W);
    NegMul(g, W);
    MulDist(k - g, -lh, W);
    NegMul(lh, W);
  }

  lemma FoldUpper(W: nat, u1: nat, u0: nat, v1: nat, v0: nat, cross: int, c: int, sum: int, lh: nat, ll: nat)
    requires ll < W && lh * W + ll == u0 * v0 && cross == u1 * v0 + u0 * v1 + lh && sum == cross + c * W
    ensures W * W > 0
    ensures (sum % W) * W + ll == ((u1 * W + u0) * (v1 * W + v0)) % (W * W)
  {
    ModShift(cross, W, c);
    HighWordWraps(W, cross, ll);
    Expand(W, u1, u0, v1, v0);
    MulDist(u1 * v0 + u0 * v1, lh, W);
    ModShift(cross * W + ll, W * W, u1 * v1);
  }

  lemma Expand(W: int, u1: int, u0: int, v1: int, v0: int)
    ensures (u1 * W + u0) * (v1 * W + v0) == (u1 * v0 + u0 * v1) * W + u0 * v0 + (u1 * v1) * (W * W)
  {
    Regroup(W, u1, u0, v1, v0);
    MiddleTerm(u1, u0, v1, v0);
    MulDist(u1 * v1 + (u1 - u0) * (v0 - v1), u0 * v0, W);
    MulDist(u1 * v1, (u1 - u0) * (v0 - v1), W);
  }

  // The magnitude product |a| * |b| modulo 2^(4h).
  method MagnitudeProduct(h: nat, u: nat, v: nat) returns (prod: nat)
    requires h > 0 && u < Base(4 * h) && v < Base(4 * h)
    ensures prod == WrapLong(h, u * v)
  {
    hide Pow, Wrap;
    ghost var W := Base(2 * h);
    SplitLong(h, u);
    SplitLong(h, v);
    var u1: nat, u0: nat, v1: nat, v0: nat := u / Base(2 * h), u % Base(2 * h), v / Base(2 * h), v % Base(2 * h);
    var lh, ll := LongProduct(h, u0, v0);
    if u1 == 0 && v1 == 0 {
      ProductBound(W, u0, v0);
      SmallMod(u0 * v0, Base(4 * h));
      return lh * Base(2 * h) + ll;
    }
    var udiff: nat, vdiff: nat, negmid;
    if u1 >= u0 {
      negmid, udiff := false, u1 - u0;
    } else {
      negmid, udiff := true, u0 - u1;
    }
    if v0 >= v1 {
      vdiff := v0 - v1;
    } else {
      vdiff, negmid := v1 - v0, !negmid;
    }
    SignedMiddle(u1, u0, v1, v0, udiff, vdiff, negmid);
    var mid := Wrap(h, udiff * vdiff);
    var high := Wrap(h, u1 * v1);
    var smid: int := if negmid then Wrap(h, -(mid as int)) else mid;
    MiddleWraps(h, udiff * vdiff, mid, negmid, smid);
    var ph := Wrap(h, high + smid + ll + lh);
    UpperWord(h, W, u1, u0, v1, v0, high, smid, lh, ll, ph);
    prod := ph * Base(2 * h) + ll;
  }

  lemma SplitLong(h: nat, x: nat)
    requires x < Base(4 * h)
    ensures Base(4 * h) == Base(2 * h) * Base(2 * h)
    ensures 0 <= x / Base(2 * h) < Base(2 * h) && 0 <= x % Base(2 * h) < Base(2 * h)
    ensures x == (x / Base(2 * h)) * Base(2 * h) + x % Base(2 * h)
  {
    hide Pow;
    var W := Base(2 * h);
    WordIsTwoHalves(2 * h);
    DivMod(x, W);
    if x / W >= W {
      MulMono(W, x / W, W);
    }
  }

  // The middle term only matters modulo 2^(2h).
  lemma MiddleWraps(h: nat, p: int, mid: nat, neg: bool, smid: int)
    requires mid == Wrap(h, p) && smid == if neg then Wrap(h, -(mid as int)) else mid
    ensures (smid - (if neg then -p else p)) % Base(2 * h) == 0
  {
    hide Pow;
    var W := Base(2 * h);
    DivMod(p, W);
    DivMod(-(mid as int), W);
    SmallMod(0, W);
    MultipleOf(W, p, mid, p / W, -(mid as int) / W, smid, neg);
  }

  lemma MultipleOf(W: nat, p: int, mid: int, b: int, a: int, smid: int, neg: bool)
    requires W > 0 && p == b * W + mid && (neg ==> -mid == a * W + smid) && (!neg ==> smid == mid)
    ensures (smid - (if neg then -p else p)) % W == 0
  {
    SmallMod(0, W);
    if neg {
      MulDist(b, -a, W);
      NegMul(a, W);
      ModShift(0, W, b - a);
    } else {
      NegMul(b, W);
      ModShift(0, W, -b);
    }
  }

  /**
   __muldi3: for every pair of long longs, the product modulo 2^(4h) in two's complement.
   */
  method Multiply(h: nat, a: int, b: int) returns (r: int)
    requires h > 0 && IsLong(h, a) && IsLong(h, b)
    ensures r == ToSigned(h, WrapLong(h, a * b))
    ensures IsLong(h, a * b) ==> r == a * b
  {
    hide Pow;
    var u: nat, v: nat, negall;
    if a >= 0 {
      u, negall := a, false;
    } else {
      u, negall := -a, true;
    }
    if b >= 0 {
      v := b;
    } else {
      v, negall := -b, !negall;
    }
    var prod := MagnitudeProduct(h, u, v);
    NegMul(u, v);
    NegateWraps(h, u * v);
    r := ToSigned(h, if negall then WrapLong(h, -(prod as int)) else prod);
    if IsLong(h, a * b) {
      SignedRoundTrip(h, a * b);
    }
  }

  lemma NegateWraps(h: nat, p: int)
    ensures WrapLong(h, -(WrapLong(h, p) as int)) == WrapLong(h, -p)
  {
    hide Pow;
    var M := Base(4 * h);
    DivMod(p, M);
    ModShift(-p, M, p / M);
  }
}
