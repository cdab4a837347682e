/** The Spritz context (struct spritz_context): the state size n, the seven
    byte registers and the permutation array, together with the two array
    accessors every other operation goes through (`sc_state` and `sc_swap`),
    which reduce their indices modulo n. */
module SpritzContext {
  import opened Arith

  /** An unsigned 8-bit value (`uint8_t`): input, output and digest bytes. */
  type Byte = b: int | 0 <= b < 256

  /** A value that may be missing: a refused construction, a digest request
      the source turns down, a search that has not stopped. */
  datatype Option<T> = None | Some(value: T)

  /** The largest state size whose entries and registers fit in a `uint8_t`. */
  const MaxN: nat := 256

  /** The registers are `uint8_t` in the source. i, j, k, z, a and w are
      reduced mod n <= 256 before they are stored, and d is at most 16
      (DigitBase), so the casts never truncate and the model keeps them as
      plain naturals. */
  datatype Context = Context(
    n: nat,
    i: nat, j: nat, k: nat, z: nat, a: nat, w: nat, d: nat,
    state: seq<nat>)

  /** The identity permutation on 0..n-1, as construction lays it out. */
  function Identity(n: nat): (r: seq<nat>)
    ensures |r| == n
    ensures forall x :: 0 <= x < n ==> r[x] == x
  {
    if n == 0 then [] else Identity(n - 1) + [n - 1]
  }

  /** s holds each of 0..n-1 exactly once. */
  ghost predicate IsPermutation(s: seq<nat>, n: nat) {
    multiset(s) == multiset(Identity(n))
  }

  /** Sizes for which the state machine is well defined: the array entries
      must fit a byte, and n == 1 makes the search in `sc_whip` diverge. */
  predicate ValidSize(n: nat) {
    2 <= n <= MaxN
  }

  /** The shape every operation needs to be well defined and keeps: the
      array holds n entries, the registers are reduced mod n, the absorb
      counter is at most n/2 and the digit base d is positive. */
  predicate WellFormed(c: Context) {
    && ValidSize(c.n)
    && |c.state| == c.n
    && c.i < c.n && c.j < c.n && c.k < c.n && c.z < c.n && c.w < c.n
    && c.a <= c.n / 2
    && 0 < c.d
  }

  /** The full invariant: besides the shape, d is the ceiling square root of
      n, the stride w is coprime with n and the array is a permutation of
      0..n-1. Each operation is proved to keep it by a lemma of its own. */
  ghost predicate Valid(c: Context) {
    && WellFormed(c)
    && c.d == CeilSqrt(c.n)
    && Coprime(c.w, c.n)
    && IsPermutation(c.state, c.n)
  }

  /** `sc_state`: the entry at position x mod n. It is always one of the
      array's entries, and for a position below n the entry at that very
      position. */
  function At(s: seq<nat>, x: nat): (r: nat)
    requires |s| > 0
    ensures r in s
    ensures x < |s| ==> r == s[x]
  {
    s[Reduce(x, |s|)]
  }

  /** Reading is periodic in the position: x and x + m * n name the same
      entry, so the accessor never reads outside the array. */
  lemma AtPeriodic(s: seq<nat>, x: nat, m: nat)
    requires |s| > 0
    ensures At(s, x + m * |s|) == At(s, x)
  {
    ReduceAddMultiple(x, m, |s|);
  }

  /** `sc_swap`: exchanges the entries at positions p mod n and q mod n and
      leaves every other entry in place. */
  function Swap(s: seq<nat>, p: nat, q: nat): (r: seq<nat>)
    requires |s| > 0
    ensures |r| == |s|
    ensures multiset(r) == multiset(s)
    ensures r[Reduce(p, |s|)] == s[Reduce(q, |s|)] && r[Reduce(q, |s|)] == s[Reduce(p, |s|)]
    ensures forall x :: 0 <= x < |s| && x != Reduce(p, |s|) && x != Reduce(q, |s|) ==> r[x] == s[x]
  {
    var p', q' := Reduce(p, |s|), Reduce(q, |s|);
    var r := seq(|s|, x requires 0 <= x < |s| => if x == p' then s[q'] else if x == q' then s[p'] else s[x]);
    assert r == s[p' := s[q']][q' := s[p']];
    r
  }

  /** Swapping the same two positions twice restores the array. */
  lemma SwapInvolution(s: seq<nat>, p: nat, q: nat)
    requires |s| > 0
    ensures Swap(Swap(s, p, q), p, q) == s
  {
  }

  /** Every entry of a permutation of 0..n-1 is below n. */
  lemma PermutationBounds(s: seq<nat>, n: nat)
    requires IsPermutation(s, n)
    ensures |s| == n
    ensures forall x :: 0 <= x < |s| ==> s[x] < n
  {
    assert |s| == |multiset(s)| == |multiset(Identity(n))| == n;
    forall x | 0 <= x < |s|
      ensures s[x] < n
    {
      assert s[x] in multiset(s);
      assert s[x] in multiset(Identity(n));
      var y :| 0 <= y < n && Identity(n)[y] == s[x];
    }
  }

  /** The entries of a valid context's array are below n. */
  lemma ValidEntries(c: Context)
    requires Valid(c)
    ensures forall x :: 0 <= x < c.n ==> c.state[x] < c.n
  {
    PermutationBounds(c.state, c.n);
  }

  /** The state size fixes the digit base: 2 <= d <= 16 and d * d >= n. */
  lemma DigitBase(n: nat)
    requires ValidSize(n)
    ensures 2 <= CeilSqrt(n) <= 16
    ensures CeilSqrt(n) * CeilSqrt(n) >= n
    ensures n <= 4 ==> CeilSqrt(n) == 2
  {
    var d := CeilSqrt(n);
    CeilSqrtIsLeast(n);
    if d > 16 {
      var e := d - 1;
      MulMonotone(e, 16, e);
      MulMonotone(e, 16, 16);
    }
  }
}
