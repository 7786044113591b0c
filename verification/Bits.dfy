/**
 Machine words of any width, as the millicode's header describes them: an int
 of 2 * h bits, a half of h bits and a long long of 4 * h bits.
 Everything is stated over natural numbers, with wrap-around written out.
 */
module Bits {

  function Pow(b: nat, e: nat): (p: nat)
    ensures b > 0 ==> p > 0
  {
    if e == 0 then 1 else b * Pow(b, e - 1)
  }

  lemma {:induction false} PowAdd(b: nat, x: nat, y: nat)
    ensures Pow(b, x + y) == Pow(b, x) * Pow(b, y)
  {
    if x != 0 {
      PowAdd(b, x - 1, y);
      calc {
        Pow(b, x + y);
        b * (Pow(b, x - 1) * Pow(b, y));
        { MulAssoc(b, Pow(b, x - 1), Pow(b, y)); }
        Pow(b, x) * Pow(b, y);
      }
    }
  }

  // The number of values a field of h bits can take: the digit base B.
  function Base(h: nat): (b: nat)
    ensures b > 0
  {
    Pow(2, h)
  }

  lemma MulAssoc(x: int, y: int, z: int)
    ensures x * (y * z) == (x * y) * z
  {}

  lemma MulComm(x: int, y: int)
    ensures x * y == y * x
  {}

  lemma MulDist(x: int, y: int, z: int)
    ensures (x + y) * z == x * z + y * z
    ensures z * (x + y) == z * x + z * y
  {}

  lemma MulMono(x: int, y: int, z: int)
    requires x <= y && 0 <= z
    ensures x * z <= y * z
    ensures z * x <= z * y
  {}

  lemma MulPos(x: int, y: int)
    requires 0 <= x && 0 <= y
    ensures 0 <= x * y
  {}

  // A product of two positive factors is at least each of them.
  lemma MulAtLeast(x: int, y: int)
    requires 1 <= x && 0 <= y
    ensures y <= x * y
    ensures y <= y * x
  {
    MulMono(1, x, y);
  }

  // Euclidean division is the only way to write x as q * d + r with 0 <= r < d.
  lemma DivModUnique(x: int, d: int, q: int, r: int)
    requires d > 0 && x == q * d + r && 0 <= r < d
    ensures x / d == q && x % d == r
  {
    var q', r' := x / d, x % d;
    assert x == q' * d + r';
    if q < q' {
      MulMono(1, q' - q, d);
      MulDist(q', -q, d);
      assert false;
    } else if q' < q {
      MulMono(1, q - q', d);
      MulDist(q, -q', d);
      assert false;
    }
  }

  lemma SmallMod(x: nat, d: nat)
    requires x < d
    ensures x % d == x && x / d == 0
  {
    DivModUnique(x, d, 0, x);
  }

  lemma DivMod(x: int, d: int)
    requires d > 0
    ensures x == (x / d) * d + x % d && 0 <= x % d < d
  {}

  // Two values that differ by a multiple of d agree modulo d.
  lemma ModShift(x: int, d: int, k: int)
    requires d > 0
    ensures (x + k * d) % d == x % d
  {
    DivMod(x, d);
    MulDist(x / d, k, d);
    DivModUnique(x + k * d, d, x / d + k, x % d);
  }

  // (x / a) / b and x / (a * b) agree.
  lemma DivDiv(x: nat, a: nat, b: nat)
    requires a > 0 && b > 0
    ensures a * b > 0
    ensures x / a / b == x / (a * b)
  {
    var q, r := x / a / b, x / a % b;
    DivMod(x, a);
    DivMod(x / a, b);
    MulDist(q * b, r, a);
    MulAssoc(q, b, a);
    MulComm(b, a);
    MulMono(r, b - 1, a);
    MulDist(b, -1, a);
    MulPos(r, a);
    DivModUnique(x, a * b, q, r * a + x % a);
  }

  // Bitwise operations on words of any width, bit by bit.
  function BitOr(x: nat, y: nat): nat {
    if x == 0 && y == 0 then 0
    else 2 * BitOr(x / 2, y / 2) + (if x % 2 == 1 || y % 2 == 1 then 1 else 0)
  }

  function BitAnd(x: nat, y: nat): nat {
    if x == 0 || y == 0 then 0
    else 2 * BitAnd(x / 2, y / 2) + (if x % 2 == 1 && y % 2 == 1 then 1 else 0)
  }

  // OR of values with no bit in common is their sum.
  lemma {:induction false} OrDisjoint(x: nat, y: nat, s: nat)
    requires y < Base(s)
    ensures BitOr(x * Base(s), y) == x * Base(s) + y
  {
    if s == 0 {
      OrZero(x);
    } else if x != 0 || y != 0 {
      var b := Base(s - 1);
      MulAssoc(x, 2, b);
      assert x * Base(s) == 2 * (x * b);
      assert x * Base(s) / 2 == x * b && (x * Base(s)) % 2 == 0;
      OrDisjoint(x, y / 2, s - 1);
      assert y == 2 * (y / 2) + y % 2;
    }
  }

  lemma {:induction false} OrZero(x: nat)
    ensures BitOr(x, 0) == x
  {
    if x != 0 {
      OrZero(x / 2);
    }
  }

  lemma {:induction false} OrComm(x: nat, y: nat)
    ensures BitOr(x, y) == BitOr(y, x)
  {
    if x != 0 || y != 0 {
      OrComm(x / 2, y / 2);
    }
  }

  // Masking with B - 1 keeps the low half.
  lemma {:induction false} AndMask(x: nat, h: nat)
    ensures BitAnd(x, Base(h) - 1) == x % Base(h)
  {
    if h != 0 && x != 0 {
      var b := Base(h - 1);
      AndMask(x / 2, h - 1);
      assert (2 * b - 1) / 2 == b - 1 && (2 * b - 1) % 2 == 1;
      ModDouble(x, b);
    }
  }

  lemma ModDouble(x: nat, b: nat)
    requires b > 0
    ensures x % (2 * b) == 2 * (x / 2 % b) + x % 2
  {
    DivMod(x / 2, b);
    MulAssoc(x / 2 / b, 2, b);
    assert x == 2 * (x / 2) + x % 2;
    DivModUnique(x, 2 * b, x / 2 / b, 2 * (x / 2 % b) + x % 2);
  }

  // The header's macros on an unsigned int of 2 * h bits.
  function HHalf(h: nat, x: nat): nat {
    x / Base(h)
  }

  function LHalf(h: nat, x: nat): nat {
    BitAnd(x, Base(h) - 1)
  }

  // A left shift that drops the bits falling off a word of w bits.
  function ShiftLeft(x: nat, s: nat, w: nat): nat {
    (x * Base(s)) % Base(w)
  }

  function ShiftRight(x: nat, s: nat): nat {
    x / Base(s)
  }

  function Combine(h: nat, a: nat, b: nat): nat {
    BitOr(ShiftLeft(a, h, 2 * h), b)
  }

  lemma LHalfIsMod(h: nat, x: nat)
    ensures LHalf(h, x) == x % Base(h)
    ensures LHalf(h, x) < Base(h)
  {
    AndMask(x, h);
  }

  // COMBINE of two digits is the two-digit number they spell.
  lemma CombineIsTwoDigits(h: nat, a: nat, b: nat)
    requires a < Base(h) && b < Base(h)
    ensures Combine(h, a, b) == a * Base(h) + b
    ensures Combine(h, a, b) < Base(h) * Base(h)
  {
    ShiftOfDigit(h, a);
    OrDisjoint(a, b, h);
    TwoDigitBound(Base(h), a, b);
  }

  lemma ShiftOfDigit(h: nat, a: nat)
    requires a < Base(h)
    ensures ShiftLeft(a, h, 2 * h) == a * Base(h)
  {
    WordIsTwoHalves(h);
    TwoDigitBound(Base(h), a, 0);
    SmallMod(a * Base(h), Base(2 * h));
  }

  lemma WordIsTwoHalves(h: nat)
    ensures Base(2 * h) == Base(h) * Base(h)
  {
    PowAdd(2, h, h);
  }

  lemma TwoDigitBound(B: nat, a: nat, b: nat)
    requires a < B && b < B
    ensures a * B + b < B * B
  {
    MulMono(a + 1, B, B);
    MulDist(a, 1, B);
  }
}
