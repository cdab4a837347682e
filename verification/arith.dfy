/** Integer helpers of the Spritz state machine: the linear-scan greatest
    common divisor of the reference implementation (spritz.c, `gcd`), the
    coprimality test built on it, the integer ceiling square root that stands
    for `ceil(sqrt(n))`, and the facts about `%` the register arithmetic needs. */
module Arith {

  /** c is a positive divisor of both a and b. */
  predicate CommonDivisor(c: nat, a: nat, b: nat) {
    0 < c && a % c == 0 && b % c == 0
  }

  /** The loop of `gcd`: tries every v from the current one up to min(a, b)
      and remembers the last common divisor seen in `result`. */
  function GcdScan(a: nat, b: nat, v: nat, result: nat): (r: nat)
    requires 1 <= v
    requires result <= a && result <= b
    requires result != 0 ==> CommonDivisor(result, a, b)
    requires forall c :: 1 <= c < v && c <= a && c <= b && CommonDivisor(c, a, b) ==> c <= result
    ensures result <= r && r <= a && r <= b
    ensures r != 0 ==> CommonDivisor(r, a, b)
    ensures forall c :: 1 <= c <= a && c <= b && CommonDivisor(c, a, b) ==> c <= r
    decreases a + 1 - v
  {
    if v > a || v > b then result
    else GcdScan(a, b, v + 1, if CommonDivisor(v, a, b) then v else result)
  }

  /** `gcd` as written: the largest v in [1, min(a, b)] dividing both, and 0
      when that range is empty, so that gcd(0, b) == 0 rather than b. */
  function Gcd(a: nat, b: nat): (r: nat)
    ensures r == 0 <==> a == 0 || b == 0
    ensures r <= a && r <= b
  {
    GcdScan(a, b, 1, 0)
  }

  /** For positive arguments `gcd` is the greatest common divisor. */
  lemma GcdIsGreatestCommonDivisor(a: nat, b: nat)
    requires a > 0 && b > 0
    ensures CommonDivisor(Gcd(a, b), a, b)
    ensures forall c: nat :: CommonDivisor(c, a, b) ==> c <= Gcd(a, b)
  {
    forall c: nat | CommonDivisor(c, a, b)
      ensures c <= Gcd(a, b)
    {
      if c > a {
        DivModUnique(a, 0, a, c);
      } else if c > b {
        DivModUnique(b, 0, b, c);
      }
    }
  }

  /** The loop condition of the search in `sc_whip`. */
  predicate Coprime(w: nat, n: nat) {
    Gcd(w, n) == 1
  }

  /** One is coprime with every positive n and zero with none; together these
      bound the search in `sc_whip` and make it skip w == 0. */
  lemma CoprimeOneNotZero(n: nat)
    requires n >= 1
    ensures Coprime(1, n)
    ensures !Coprime(0, n)
  {
    assert GcdScan(1, n, 1, 0) == GcdScan(1, n, 2, 1);
  }

  /** Search for the least d >= start with d * d >= n. */
  function CeilSqrtFrom(n: nat, start: nat): nat
    decreases n - start
  {
    if start * start >= n then start
    else
      assert start <= start * start || start == 0;
      CeilSqrtFrom(n, start + 1)
  }

  /** The integer ceiling square root, standing for `ceil(sqrt(n))`. */
  function CeilSqrt(n: nat): nat {
    CeilSqrtFrom(n, 0)
  }

  lemma {:induction false} CeilSqrtFromIsLeast(n: nat, start: nat)
    requires start == 0 || (start - 1) * (start - 1) < n
    ensures var d := CeilSqrtFrom(n, start); start <= d && d * d >= n && (d == 0 || (d - 1) * (d - 1) < n)
    decreases n - start
  {
    if start * start < n {
      var next := start + 1;
      assert (next - 1) * (next - 1) == start * start;
      CeilSqrtFromIsLeast(n, next);
    }
  }

  /** CeilSqrt(n) is the least d with d * d >= n. */
  lemma CeilSqrtIsLeast(n: nat)
    ensures CeilSqrt(n) * CeilSqrt(n) >= n
    ensures CeilSqrt(n) == 0 || (CeilSqrt(n) - 1) * (CeilSqrt(n) - 1) < n
  {
    CeilSqrtFromIsLeast(n, 0);
  }

  function Min(x: int, y: int): int { if x <= y then x else y }

  function Max(x: int, y: int): int { if x <= y then y else x }

  lemma MulAtLeast(e: int, n: int)
    requires n > 0 && e >= 1
    ensures e * n >= n
  {
  }

  lemma MulMonotone(x: int, y: int, c: int)
    requires x >= y && c >= 0
    ensures x * c >= y * c
  {
  }

  /** Euclidean division is unique: any q, r with v == q * n + r and
      0 <= r < n are v / n and v % n. */
  lemma DivModUnique(v: int, q: int, r: int, n: int)
    requires n > 0 && 0 <= r < n && v == q * n + r
    ensures v % n == r && v / n == q
  {
    var q0, r0 := v / n, v % n;
    assert v == q0 * n + r0;
    assert (q - q0) * n == r0 - r;
    if q > q0 {
      MulAtLeast(q - q0, n);
    } else if q < q0 {
      MulAtLeast(q0 - q, n);
    }
  }

  /** Adding a multiple of n does not change a residue. */
  lemma ModAddMultiple(x: int, m: int, n: int)
    requires n > 0
    ensures (x + m * n) % n == x % n
  {
    assert x + m * n == (x / n + m) * n + x % n;
    DivModUnique(x + m * n, x / n + m, x % n, n);
  }

  /** Reducing a summand first does not change the sum's residue. */
  lemma ModAddMod(x: int, y: int, n: int)
    requires n > 0
    ensures (x % n + y) % n == (x + y) % n
  {
    ModAddMultiple(x + y, -(x / n), n);
    assert x % n + y == (x + y) + (-(x / n)) * n;
  }

  /** The unsigned `%` of the source on naturals, written as repeated
      subtraction so that the solver only unfolds it on demand; it equals
      Dafny's `%` (ReduceIsMod). */
  function Reduce(x: nat, n: nat): (r: nat)
    requires n > 0
    ensures r < n
    ensures x < n ==> r == x
    decreases x
  {
    if x < n then x else Reduce(x - n, n)
  }

  /** The unsigned `/` of the source on naturals, by repeated subtraction
      like Reduce; it equals Dafny's `/` (QuotIsDiv). */
  function Quot(x: nat, n: nat): (q: nat)
    requires n > 0
    ensures q <= x
    ensures x < n ==> q == 0
    decreases x
  {
    if x < n then 0 else Quot(x - n, n) + 1
  }

  /** Quotient and remainder put x back together. */
  lemma {:induction false} QuotReduce(x: nat, n: nat)
    requires n > 0
    ensures Quot(x, n) * n + Reduce(x, n) == x
    decreases x
  {
    if x >= n {
      QuotReduce(x - n, n);
      assert (Quot(x - n, n) + 1) * n == Quot(x - n, n) * n + n;
    }
  }

  lemma QuotIsDiv(x: nat, n: nat)
    requires n > 0
    ensures Quot(x, n) == x / n && Reduce(x, n) == x % n
  {
    QuotReduce(x, n);
    DivModUnique(x, Quot(x, n), Reduce(x, n), n);
  }

  /** Quotient and remainder are the only such pair: any q, r with
      x == q * n + r and r < n are Quot(x, n) and Reduce(x, n). */
  lemma QuotReduceUnique(x: nat, n: nat, q: nat, r: nat)
    requires 0 < n && r < n && x == q * n + r
    ensures q == Quot(x, n) && r == Reduce(x, n)
  {
    QuotIsDiv(x, n);
    DivModUnique(x, q, r, n);
  }

  lemma ReduceIsMod(x: nat, n: nat)
    requires n > 0
    ensures Reduce(x, n) == x % n
    decreases x
  {
    if x >= n {
      ReduceIsMod(x - n, n);
      ModAddMultiple(x - n, 1, n);
    } else {
      DivModUnique(x, 0, x, n);
    }
  }

  /** Reducing a summand first does not change the reduced sum. */
  lemma ReduceAddReduce(x: nat, y: nat, n: nat)
    requires n > 0
    ensures Reduce(Reduce(x, n) + y, n) == Reduce(x + y, n)
  {
    ReduceIsMod(x, n);
    ReduceIsMod(x % n + y, n);
    ReduceIsMod(x + y, n);
    ModAddMod(x, y, n);
  }

  /** Adding a multiple of n does not change the reduced value. */
  lemma ReduceAddMultiple(x: nat, m: nat, n: nat)
    requires n > 0
    ensures Reduce(x + m * n, n) == Reduce(x, n)
  {
    ReduceIsMod(x, n);
    ReduceIsMod(x + m * n, n);
    ModAddMultiple(x, m, n);
  }

  /** The quotient of x by d is below d whenever x < d * d. */
  lemma QuotientBelowRoot(x: nat, d: nat)
    requires 0 < d && x < d * d
    ensures Quot(x, d) < d
  {
    QuotReduce(x, d);
    if Quot(x, d) >= d {
      MulMonotone(Quot(x, d), d, d);
    }
  }
}
