/** The squeezing half of the sponge (spritz.c): `sc_output` computes the
    next output value into z, `sc_drip` makes the state ready (a shuffle
    when input is pending), updates and outputs, and `sc_squeeze` drips r
    bytes after shuffling once. */
module Extraction {
  import opened Arith
  import opened SpritzContext
  import opened Mixing

  /** `sc_output`: z becomes the entry at j + S[i + S[z + k]] (all indices
      mod n); nothing else changes. The new z is the byte returned. */
  function Output(c: Context): (r: Context)
    requires WellFormed(c)
    ensures WellFormed(r)
    ensures r == c.(z := r.z)
  {
    var sum := At(c.state, c.j + At(c.state, c.i + At(c.state, c.z + c.k)));
    c.(z := Reduce(sum, c.n))
  }

  /** In a valid context the byte `sc_output` returns is one of the array's
      entries: they are all below n, so the final reduction mod n leaves
      the entry read unchanged. */
  lemma OutputIsEntry(c: Context)
    requires Valid(c)
    ensures Output(c).z in c.state
  {
    ValidEntries(c);
  }

  /** The guard at the head of `sc_drip` and `sc_squeeze`: absorbed input
      that has not been mixed in yet (a > 0) is shuffled in first. */
  function ShuffleIfPending(c: Context): (r: Context)
    requires WellFormed(c)
    ensures WellFormed(r)
    ensures r.a == 0
    ensures c.a == 0 ==> r == c
    ensures c.a > 0 ==> Coprime(r.w, r.n)
    ensures r.n == c.n && r.z == c.z && r.d == c.d
    ensures multiset(r.state) == multiset(c.state)
  {
    if c.a > 0 then Shuffle(c) else c
  }

  /** `sc_drip`: shuffle if input is pending, update, output. Afterwards no
      input is pending and the stride is still coprime with n; the byte
      produced is the new z. */
  function Drip(c: Context): (r: Context)
    requires WellFormed(c)
    ensures WellFormed(r)
    ensures r.a == 0
    ensures c.a > 0 || Coprime(c.w, c.n) ==> Coprime(r.w, r.n)
    ensures r.n == c.n && r.d == c.d
    ensures multiset(r.state) == multiset(c.state)
  {
    Output(Update(ShuffleIfPending(c)))
  }

  /** With no input pending a drip does not shuffle: the stride and the
      counters are kept, i advances by w, and the array differs from the one
      before by a single exchange, of the entries at the new i and new j. */
  lemma DripWithoutPending(c: Context)
    requires WellFormed(c) && c.a == 0
    ensures var r := Drip(c);
      && r.n == c.n && r.a == 0 && r.w == c.w && r.d == c.d
      && r.i == Reduce(c.i + c.w, c.n)
      && r.state[r.i] == c.state[r.j] && r.state[r.j] == c.state[r.i]
      && forall x :: 0 <= x < c.n && x != r.i && x != r.j ==> r.state[x] == c.state[x]
  {
    UpdateExchanges(c);
  }

  /** Every value of s is below n, stated front to back. */
  predicate AllBelow(s: seq<Byte>, n: nat)
    decreases |s|
  {
    |s| == 0 || (s[0] < n && AllBelow(s[1..], n))
  }

  /** AllBelow says of every index what its definition says front to back. */
  lemma {:induction false} AllBelowIndexed(s: seq<Byte>, n: nat)
    ensures AllBelow(s, n) <==> forall x :: 0 <= x < |s| ==> s[x] < n
    decreases |s|
  {
    if |s| > 0 {
      AllBelowIndexed(s[1..], n);
      assert forall x :: 1 <= x < |s| ==> s[x] == s[1..][x - 1];
    }
  }

  /** The loop of `sc_squeeze`: `count` drips, the bytes in the order they
      are written to the output buffer. */
  function DripN(c: Context, count: nat): (res: (Context, seq<Byte>))
    requires WellFormed(c)
    ensures WellFormed(res.0)
    ensures |res.1| == count
    ensures AllBelow(res.1, c.n)
    ensures res.0.n == c.n && res.0.d == c.d
    ensures count == 0 ==> res.0 == c
    ensures count > 0 ==> res.0.a == 0
    ensures count > 0 && (c.a > 0 || Coprime(c.w, c.n)) ==> Coprime(res.0.w, res.0.n)
    ensures multiset(res.0.state) == multiset(c.state)
    decreases count
  {
    if count == 0 then (c, [])
    else
      var c1 := Drip(c);
      var rest := DripN(c1, count - 1);
      (rest.0, [c1.z as Byte] + rest.1)
  }

  /** `sc_squeeze(r)`: nothing for r == 0; otherwise one shuffle if input
      is pending, then r drips. It writes exactly r bytes and leaves no
      input pending. */
  function Squeeze(c: Context, r: nat): (res: (Context, seq<Byte>))
    requires WellFormed(c)
    ensures WellFormed(res.0)
    ensures r == 0 ==> res == (c, [])
    ensures r > 0 ==> res.0.a == 0
    ensures r > 0 && (c.a > 0 || Coprime(c.w, c.n)) ==> Coprime(res.0.w, res.0.n)
    ensures |res.1| == r
    ensures AllBelow(res.1, c.n)
    ensures res.0.n == c.n && res.0.d == c.d
    ensures multiset(res.0.state) == multiset(c.state)
  {
    if r == 0 then (c, [])
    else DripN(ShuffleIfPending(c), r)
  }

  /** Every byte a squeeze writes is below n. */
  lemma SqueezeBelowSize(c: Context, r: nat)
    requires WellFormed(c)
    ensures forall x :: 0 <= x < r ==> Squeeze(c, r).1[x] < c.n
  {
    AllBelowIndexed(Squeeze(c, r).1, c.n);
  }

  /** `sc_squeeze_byte`: a squeeze of one byte. */
  function SqueezeByte(c: Context): (res: (Context, Byte))
    requires WellFormed(c)
    ensures WellFormed(res.0)
    ensures res.0.a == 0
    ensures res.1 < c.n
    ensures res.0.n == c.n && res.0.d == c.d
    ensures multiset(res.0.state) == multiset(c.state)
  {
    SqueezeBelowSize(c, 1);
    var s := Squeeze(c, 1);
    (s.0, s.1[0])
  }

  /** Squeezing one byte is one drip: the shuffle `sc_squeeze` performs up
      front is the one `sc_drip` would have performed. */
  lemma SqueezeByteIsDrip(c: Context)
    requires WellFormed(c)
    ensures SqueezeByte(c).0 == Drip(c)
    ensures SqueezeByte(c).1 == Drip(c).z
  {
  }

  /** Squeezing k > 0 bytes is squeezing one byte and then k - 1 more: the
      bytes come out in the order they are dripped. */
  lemma SqueezeStep(c: Context, k: nat)
    requires WellFormed(c) && k > 0
    ensures var b := SqueezeByte(c); var rest := Squeeze(b.0, k - 1);
      Squeeze(c, k) == (rest.0, [b.1] + rest.1)
  {
  }

  /** Squeezing keeps the invariant, so the output of a valid context is
      always drawn from a permutation with a coprime stride. */
  lemma SqueezeKeepsValid(c: Context, r: nat)
    requires Valid(c)
    ensures Valid(Squeeze(c, r).0)
    ensures Valid(SqueezeByte(c).0)
  {
  }
}
