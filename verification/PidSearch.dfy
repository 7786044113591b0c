/**
 The search of pid_alloc for a free slot, for any number of slots and any range of pids:
 pids are tried in turn, wrapping around, and each belongs to the slot it is congruent to.
 */
module PidSearch {
  import opened Bits

  // inc_nextpid.
  function Inc(lo: nat, hi: nat, next: nat): nat {
    if next + 1 > hi then lo else next + 1
  }

  // How many increments it takes from next to reach a pid that belongs to slot r of n.
  function Distance(n: nat, lo: nat, hi: nat, next: nat, r: nat): nat
    requires 0 < n && lo <= next <= hi && r < n
  {
    DivMod(r - next, n);
    DivMod(r - lo, n);
    var d := (r - next) % n;
    if next + d <= hi then d else (hi - next + 1) + (r - lo) % n
  }

  // Going back by one inside a residue class system.
  lemma ModDec(x: int, n: nat)
    requires 0 < n && x % n > 0
    ensures (x - 1) % n == x % n - 1
  {
    DivMod(x, n);
    DivModUnique(x - 1, n, x / n, x % n - 1);
  }

  lemma Congruent(next: nat, r: nat, n: nat)
    requires r < n
    ensures (r - next) % n == 0 <==> next % n == r
  {
    DivMod(next, n);
    DivMod(r - next, n);
    var q := next / n;
    if next % n == r {
      DivModUnique(r - next, n, -q, 0);
    }
    if (r - next) % n == 0 {
      var k := (r - next) / n;
      DivModUnique(next, n, -k, r);
    }
  }

  // As long as there are as many pids as slots, the search wraps around at most once.
  lemma DistanceBound(n: nat, lo: nat, hi: nat, next: nat, r: nat)
    requires 0 < n <= hi - lo + 1 && lo <= next <= hi && r < n
    ensures Distance(n, lo, hi, next, r) < 2 * n
  {
    DivMod(r - next, n);
    DivMod(r - lo, n);
  }

  // Zero increments away means next belongs to r; otherwise one increment comes one closer.
  lemma DistanceStep(n: nat, lo: nat, hi: nat, next: nat, r: nat)
    requires 0 < n <= hi - lo + 1 && lo <= next <= hi && r < n
    ensures Distance(n, lo, hi, next, r) == 0 <==> next % n == r
    ensures next % n != r ==> Distance(n, lo, hi, Inc(lo, hi, next), r) == Distance(n, lo, hi, next, r) - 1
  {
    Congruent(next, r, n);
    DivMod(r - next, n);
    DivMod(r - lo, n);
    var d := (r - next) % n;
    if d > 0 {
      ModDec(r - next, n);
      assert r - (next + 1) == r - next - 1;
    }
  }

  // The pid after k increments.
  function Advance(lo: nat, hi: nat, next: nat, k: nat): nat
    decreases k
  {
    if k == 0 then next else Advance(lo, hi, Inc(lo, hi, next), k - 1)
  }

  lemma {:induction false} AdvanceRange(lo: nat, hi: nat, next: nat, k: nat)
    requires lo <= next <= hi
    ensures lo <= Advance(lo, hi, next, k) <= hi
    decreases k
  {
    if k > 0 {
      AdvanceRange(lo, hi, Inc(lo, hi, next), k - 1);
    }
  }

  lemma {:induction false} Arrives(n: nat, lo: nat, hi: nat, next: nat, r: nat)
    requires 0 < n <= hi - lo + 1 && lo <= next <= hi && r < n
    ensures Advance(lo, hi, next, Distance(n, lo, hi, next, r)) % n == r
    decreases Distance(n, lo, hi, next, r)
  {
    DistanceStep(n, lo, hi, next, r);
    hide Distance;
    if next % n != r {
      Arrives(n, lo, hi, Inc(lo, hi, next), r);
    }
  }

  // A pid of slot r turns up within 2n increments from next; pid_alloc asserts 2n + 5.
  ghost predicate Reaches(n: nat, lo: nat, hi: nat, next: nat, r: nat)
    requires 0 < n
  {
    exists k: nat :: k < 2 * n && Advance(lo, hi, next, k) % n == r
  }

  /**
   From every pid the search reaches every slot within its bound if and only if there are at
   least as many pids as slots.
   */
  lemma SearchReaches(n: nat, lo: nat, hi: nat)
    requires 0 < n && lo <= hi
    ensures (forall next: nat, r: nat | lo <= next <= hi && r < n :: Reaches(n, lo, hi, next, r)) <==> n <= hi - lo + 1
  {
    if n <= hi - lo + 1 {
      forall next: nat, r: nat | lo <= next <= hi && r < n
        ensures Reaches(n, lo, hi, next, r)
      {
        DistanceBound(n, lo, hi, next, r);
        Arrives(n, lo, hi, next, r);
      }
    } else {
      DivMod(hi + 1, n);
      var r := (hi + 1) % n;
      forall k: nat | k < 2 * n
        ensures Advance(lo, hi, lo, k) % n != r
      {
        AdvanceRange(lo, hi, lo, k);
        NotCongruent(Advance(lo, hi, lo, k), hi + 1, n);
      }
      assert !Reaches(n, lo, hi, lo, r);
    }
  }

  // Fewer than n apart, two numbers are in different slots.
  lemma NotCongruent(x: nat, y: nat, n: nat)
    requires x < y < x + n
    ensures x % n != y % n
  {
    DivMod(x, n);
    DivMod(y, n);
    var p, q := x / n, y / n;
    if x % n == y % n {
      assert y - x == q * n - p * n;
      MulDist(q - p, p, n);
      if q - p <= 0 {
        MulMono(q - p, 0, n);
      } else {
        MulMono(1, q - p, n);
      }
    }
  }
}
