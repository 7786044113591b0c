/**
 Signed and unsigned long longs of 4 * h bits in two's complement.
 */
module LongLong {
  import opened Bits

  // Unsigned int arithmetic: results wrap modulo 2^(2h).
  function Wrap(h: nat, x: int): (w: nat)
    ensures w < Base(2 * h)
  {
    x % Base(2 * h)
  }

  // Unsigned long long arithmetic: results wrap modulo 2^(4h).
  function WrapLong(h: nat, x: int): (w: nat)
    ensures w < Base(4 * h)
  {
    x % Base(4 * h)
  }

  predicate IsLong(h: nat, a: int) {
    -(Base(4 * h) as int) <= 2 * a < Base(4 * h)
  }

  // The signed reading of an unsigned long long.
  function ToSigned(h: nat, x: nat): int {
    if 2 * x < Base(4 * h) then x else x as int - Base(4 * h)
  }

  lemma ModAdd(x: int, y: int, d: int)
    requires d > 0
    ensures (x % d + y) % d == (x + y) % d
  {
    DivMod(x, d);
    ModShift(x % d + y, d, x / d);
  }

  // Casting to unsigned and reading back as signed is the identity on long longs.
  lemma SignedRoundTrip(h: nat, a: int)
    requires IsLong(h, a)
    ensures ToSigned(h, WrapLong(h, a)) == a
  {
    hide Pow;
    var M := Base(4 * h);
    if a >= 0 {
      SmallMod(a, M);
    } else {
      ModShift(a, M, 1);
      SmallMod(a + M, M);
    }
  }
}
