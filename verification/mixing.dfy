/** The mixing primitives of Spritz (spritz.c): `sc_update`, `sc_whip` with
    its coprime search for the stride w, `sc_crush` and `sc_shuffle`. Every
    change they make to the array is an exchange through `Swap`. */
module Mixing {
  import opened Arith
  import opened SpritzContext

  /** `sc_update`, in the source's evaluation order: the new i feeds the
      computation of j, the new i and j feed k, and the swap uses the new i
      and j. It advances i by the stride w and touches nothing but i, j, k
      and the array (UpdateExchanges says how the array changes). */
  function Update(c: Context): (r: Context)
    requires WellFormed(c)
    ensures WellFormed(r)
    ensures r.i == Reduce(c.i + c.w, c.n)
    ensures r.n == c.n && r.z == c.z && r.a == c.a && r.w == c.w && r.d == c.d
    ensures multiset(r.state) == multiset(c.state)
  {
    var i := Reduce(c.i + c.w, c.n);
    var j := Reduce(c.k + At(c.state, c.j + At(c.state, i)), c.n);
    var k := Reduce(i + c.k + At(c.state, j), c.n);
    c.(i := i, j := j, k := k, state := Swap(c.state, i, j))
  }

  /** An update exchanges the entries at the new i and the new j and leaves
      every other entry of the array in place. */
  lemma UpdateExchanges(c: Context)
    requires WellFormed(c)
    ensures var r := Update(c);
      && r.state[r.i] == c.state[r.j] && r.state[r.j] == c.state[r.i]
      && forall x :: 0 <= x < c.n && x != r.i && x != r.j ==> r.state[x] == c.state[x]
  {
  }

  /** An update keeps the invariant: the array is only permuted and the
      stride is untouched. */
  lemma UpdateKeepsValid(c: Context)
    requires Valid(c)
    ensures Valid(Update(c))
  {
  }

  /** The loop of `sc_whip`: `sc_update` performed `count` times. Only i, j,
      k and the array change. */
  function Updates(c: Context, count: nat): (r: Context)
    requires WellFormed(c)
    ensures WellFormed(r)
    ensures r.n == c.n && r.z == c.z && r.a == c.a && r.w == c.w && r.d == c.d
    ensures multiset(r.state) == multiset(c.state)
    decreases count
  {
    if count == 0 then c
    else Updates(Update(c), count - 1)
  }

  lemma UpdatesKeepValid(c: Context, count: nat)
    requires Valid(c)
    ensures Valid(Updates(c, count))
  {
  }

  /** The value the search in `sc_whip` tries after u increments of w. */
  function Advance(w: nat, u: nat, n: nat): nat
    requires n > 0
  {
    Reduce(w + u, n)
  }

  /** Advancing u times from w is advancing u - 1 times from the value
      one increment after w. */
  lemma AdvanceAfterStep(w: nat, u: nat, n: nat)
    requires n > 0 && u >= 1
    ensures Advance(Reduce(w + 1, n), u - 1, n) == Advance(w, u, n)
  {
    ReduceAddReduce(w + 1, u - 1, n);
  }

  /** The number of increments, between 1 and n, that lead from w to v
      cyclically modulo n. */
  function Gap(w: nat, v: nat, n: nat): int {
    if v > w then v - w else v + n - w
  }

  /** The `do ... while` of `sc_whip`: the first value after w, cyclically,
      that is coprime with n. The search ends because 1 is coprime with n,
      and never yields 0 because gcd(0, n) == 0 (NextCoprimeIsFirst). */
  function NextCoprime(w: nat, n: nat): (r: nat)
    requires 2 <= n && w < n
    ensures r < n && Coprime(r, n) && r != 0
    decreases if w == 0 then 0 else n - w
  {
    CoprimeOneNotZero(n);
    var v := Reduce(w + 1, n);
    if Coprime(v, n) then v else NextCoprime(v, n)
  }

  /** For a target t other than the value one increment after w, the gap
      from w is one more than the gap from that value. */
  lemma GapAfterStep(w: nat, t: nat, n: nat)
    requires 2 <= n && w < n && t < n && t != Reduce(w + 1, n)
    ensures Gap(w, t, n) == Gap(Reduce(w + 1, n), t, n) + 1
  {
  }

  /** NextCoprime is the first coprime value the search meets: it lies
      Gap(w, r, n) increments after w, no sooner than 1 would, and every
      value tried before it fails the test. */
  lemma {:induction false} NextCoprimeIsFirst(w: nat, n: nat)
    requires 2 <= n && w < n
    ensures var r := NextCoprime(w, n);
      && 1 <= Gap(w, r, n) <= Gap(w, 1, n) <= n
      && Advance(w, Gap(w, r, n), n) == r
      && forall u :: 1 <= u < Gap(w, r, n) ==> !Coprime(Advance(w, u, n), n)
    decreases if w == 0 then 0 else n - w
  {
    CoprimeOneNotZero(n);
    var v := Reduce(w + 1, n);
    if !Coprime(v, n) {
      var r := NextCoprime(v, n);
      NextCoprimeIsFirst(v, n);
      GapAfterStep(w, r, n);
      GapAfterStep(w, 1, n);
      AdvanceAfterStep(w, Gap(w, r, n), n);
      forall u | 1 < u < Gap(w, r, n)
        ensures !Coprime(Advance(w, u, n), n)
      {
        AdvanceAfterStep(w, u, n);
      }
    }
  }

  /** The search of `sc_whip` exactly as written, for any n >= 1, allowed at
      most `fuel` increments: Some(v) for the first value v it tries with
      gcd(v, n) == 1, None when it has not stopped by then. */
  function SearchAsWritten(w: nat, n: nat, fuel: nat): (r: Option<nat>)
    requires n >= 1
    ensures r.Some? ==> r.value < n && Coprime(r.value, n)
    decreases fuel
  {
    if fuel == 0 then None
    else
      var v := Reduce(w + 1, n);
      if Coprime(v, n) then Some(v) else SearchAsWritten(v, n, fuel - 1)
  }

  /** For n == 1 every value the search tries is 0, and gcd(0, 1) == 0, so
      it never stops from any start (construction sets w == 1), however many
      increments it is allowed. */
  lemma {:induction false} SearchNeverEndsForSizeOne(w: nat, fuel: nat)
    ensures SearchAsWritten(w, 1, fuel).None?
    decreases fuel
  {
    if fuel > 0 {
      SearchNeverEndsForSizeOne(Reduce(w + 1, 1), fuel - 1);
    }
  }

  /** For n >= 2 the search as written stops at NextCoprime once it is
      allowed the Gap that separates the two. */
  lemma {:induction false} SearchReachesNextCoprime(w: nat, n: nat, fuel: nat)
    requires 2 <= n && w < n && fuel >= Gap(w, NextCoprime(w, n), n)
    ensures SearchAsWritten(w, n, fuel) == Some(NextCoprime(w, n))
    decreases if w == 0 then 0 else n - w
  {
    CoprimeOneNotZero(n);
    NextCoprimeIsFirst(w, n);
    var v := Reduce(w + 1, n);
    if !Coprime(v, n) {
      NextCoprimeIsFirst(v, n);
      assert Gap(w, NextCoprime(v, n), n) == Gap(v, NextCoprime(v, n), n) + 1;
      SearchReachesNextCoprime(v, n, fuel - 1);
    }
  }

  /** For every size from 2 up the search as written stops within n
      increments, at NextCoprime. */
  lemma SearchStopsWithinSize(w: nat, n: nat)
    requires 2 <= n && w < n
    ensures SearchAsWritten(w, n, n) == Some(NextCoprime(w, n))
  {
    NextCoprimeIsFirst(w, n);
    SearchReachesNextCoprime(w, n, n);
  }

  /** `sc_whip(r)`: nothing for r == 0; otherwise r updates followed by the
      search for the next stride coprime with n (NextCoprime). The counters
      a and z are untouched. */
  function Whip(c: Context, r: nat): (c': Context)
    requires WellFormed(c)
    ensures WellFormed(c')
    ensures r == 0 ==> c' == c
    ensures r > 0 ==> c'.w == NextCoprime(c.w, c.n)
    ensures c'.n == c.n && c'.z == c.z && c'.a == c.a && c'.d == c.d
    ensures multiset(c'.state) == multiset(c.state)
  {
    if r == 0 then c
    else
      var u := Updates(c, r);
      u.(w := NextCoprime(u.w, u.n))
  }

  /** A whip keeps the invariant; in particular the new stride is coprime
      with n. */
  lemma WhipKeepsValid(c: Context, r: nat)
    requires Valid(c)
    ensures Valid(Whip(c, r))
  {
    if r > 0 {
      UpdatesKeepValid(c, r);
    }
  }

  /** One step of `sc_crush`: positions v and t are exchanged when the entry
      at v is the greater, so that afterwards the smaller value sits at v. */
  function CompareExchange(s: seq<nat>, v: nat, t: nat): (r: seq<nat>)
    requires v < t < |s|
    ensures |r| == |s|
    ensures multiset(r) == multiset(s)
    ensures r[v] == Min(s[v], s[t]) && r[t] == Max(s[v], s[t])
    ensures forall p :: 0 <= p < |s| && p != v && p != t ==> r[p] == s[p]
  {
    if At(s, v) > At(s, t) then Swap(s, v, t) else s
  }

  /** The loop of `sc_crush` from position v on: each v below h == n/2 is
      compared with its mirror n-1-v and the two are exchanged when out of
      order. */
  function CrushFrom(s: seq<nat>, v: nat, h: nat): (r: seq<nat>)
    requires 2 * h <= |s| <= 2 * h + 1 && v <= h
    ensures |r| == |s|
    ensures multiset(r) == multiset(s)
    decreases h - v
  {
    if v == h then s
    else CrushFrom(CompareExchange(s, v, Reduce(|s| - 1 - v, |s|)), v + 1, h)
  }

  /** The loop from v on puts the smaller of each remaining mirrored pair
      below and the greater above, and moves nothing outside those pairs. */
  lemma {:induction false} CrushFromOrders(s: seq<nat>, v: nat, h: nat)
    requires 2 * h <= |s| <= 2 * h + 1 && v <= h
    ensures var r := CrushFrom(s, v, h);
      && (forall p :: 0 <= p < |s| && !(v <= p < h) && !(v <= |s| - 1 - p < h) ==> r[p] == s[p])
      && (forall p :: v <= p < h ==>
            r[p] == Min(s[p], s[|s| - 1 - p]) && r[|s| - 1 - p] == Max(s[p], s[|s| - 1 - p]))
    decreases h - v
  {
    if v < h {
      var m := |s| - 1 - v;
      var t := CompareExchange(s, v, Reduce(m, |s|));
      assert Reduce(m, |s|) == m;
      CrushFromOrders(t, v + 1, h);
      var r := CrushFrom(t, v + 1, h);
      assert r[v] == t[v] && r[m] == t[m];
      forall p | v < p < h
        ensures r[p] == Min(s[p], s[|s| - 1 - p]) && r[|s| - 1 - p] == Max(s[p], s[|s| - 1 - p])
      {
        assert t[p] == s[p] && t[|s| - 1 - p] == s[|s| - 1 - p];
      }
    }
  }

  /** `sc_crush`: only the array changes, and only by exchanges. */
  function Crush(c: Context): (r: Context)
    requires WellFormed(c)
    ensures WellFormed(r)
    ensures multiset(r.state) == multiset(c.state)
    ensures r.n == c.n && r.i == c.i && r.j == c.j && r.k == c.k && r.z == c.z
    ensures r.a == c.a && r.w == c.w && r.d == c.d
  {
    c.(state := CrushFrom(c.state, 0, c.n / 2))
  }

  /** After `sc_crush` each mirrored pair holds the same two values as
      before, the smaller below; the middle entry of an odd-sized array
      stays put. */
  lemma CrushSortsPairs(c: Context)
    requires WellFormed(c)
    ensures var r := Crush(c);
      && (forall v :: 0 <= v < c.n / 2 ==>
            r.state[v] == Min(c.state[v], c.state[c.n - 1 - v]) &&
            r.state[c.n - 1 - v] == Max(c.state[v], c.state[c.n - 1 - v]))
      && (c.n % 2 == 1 ==> r.state[c.n / 2] == c.state[c.n / 2])
  {
    CrushFromOrders(c.state, 0, c.n / 2);
  }

  /** After `sc_crush` every entry in the lower half is at most its mirror. */
  lemma CrushOrdersMirrors(c: Context)
    requires WellFormed(c)
    ensures forall v :: 0 <= v < c.n / 2 ==> Crush(c).state[v] <= Crush(c).state[c.n - 1 - v]
  {
    CrushSortsPairs(c);
    var r := Crush(c);
    forall v | 0 <= v < c.n / 2
      ensures r.state[v] <= r.state[c.n - 1 - v]
    {
      assert r.state[v] == Min(c.state[v], c.state[c.n - 1 - v]);
    }
  }

  /** `sc_shuffle`: three whips of 2n updates interleaved with two crushes,
      then the absorb counter a is reset. The output register z is left
      alone. */
  function Shuffle(c: Context): (r: Context)
    requires WellFormed(c)
    ensures WellFormed(r)
    ensures r.a == 0 && Coprime(r.w, r.n)
    ensures r.n == c.n && r.z == c.z && r.d == c.d
    ensures multiset(r.state) == multiset(c.state)
  {
    var c1 := Whip(c, 2 * c.n);
    var c2 := Crush(c1);
    var c3 := Whip(c2, 2 * c.n);
    var c4 := Crush(c3);
    var c5 := Whip(c4, 2 * c.n);
    c5.(a := 0)
  }

  /** A shuffle keeps the invariant. */
  lemma ShuffleKeepsValid(c: Context)
    requires Valid(c)
    ensures Valid(Shuffle(c))
  {
    var c1 := Whip(c, 2 * c.n);
    WhipKeepsValid(c, 2 * c.n);
    var c3 := Whip(Crush(c1), 2 * c.n);
    WhipKeepsValid(Crush(c1), 2 * c.n);
    WhipKeepsValid(Crush(c3), 2 * c.n);
  }
}
