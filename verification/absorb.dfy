/** The absorbing half of the sponge (spritz.c): a byte is reduced mod n,
    split into two base-d digits (`sc_low`, `sc_high`), and each digit is
    mixed into the array by `sc_absorb_nibble`; `sc_absorb_stop` marks a
    boundary between inputs by advancing the counter a alone. A shuffle
    happens whenever a has reached n/2. */
module Absorption {
  import opened Arith
  import opened SpritzContext
  import opened Mixing

  /** `sc_low`: the low base-d digit of b. */
  function Low(b: nat, d: nat): (r: nat)
    requires d > 0
    ensures r < d
    ensures b < d ==> r == b
  {
    Reduce(b, d)
  }

  /** `sc_high`: the high base-d digit of b. */
  function High(b: nat, d: nat): (r: nat)
    requires d > 0
    ensures r <= b
    ensures b < d ==> r == 0
  {
    Quot(b, d)
  }

  /** h and l are base-d digits of b, high and low. */
  predicate IsDigitPair(h: nat, l: nat, d: nat, b: nat) {
    h < d && l < d && h * d + l == b
  }

  /** Splitting into digits loses nothing: every value below d * d has two
      digits below d from which it is recovered, and no other pair of digits
      below d gives it back. */
  lemma DigitsLossless(b: nat, d: nat)
    requires 0 < d && b < d * d
    ensures IsDigitPair(High(b, d), Low(b, d), d, b)
    ensures forall h: nat, l: nat :: IsDigitPair(h, l, d, b) ==> h == High(b, d) && l == Low(b, d)
  {
    QuotientBelowRoot(b, d);
    QuotReduce(b, d);
    forall h: nat, l: nat | IsDigitPair(h, l, d, b)
      ensures h == High(b, d) && l == Low(b, d)
    {
      QuotReduceUnique(b, d, h, l);
    }
  }

  /** In a valid context both digits of a reduced byte are below d and give
      the reduced byte back. */
  lemma ByteDigitsBelowBase(c: Context, b: nat)
    requires Valid(c)
    ensures c.d > 0
    ensures var v := Reduce(b, c.n); IsDigitPair(High(v, c.d), Low(v, c.d), c.d, v)
  {
    DigitBase(c.n);
    DigitsLossless(Reduce(b, c.n), c.d);
  }

  /** The counter a after one absorb step: 1 after the forced shuffle,
      otherwise one more than before. */
  function NextCount(c: Context): nat {
    if c.a == c.n / 2 then 1 else c.a + 1
  }

  /** The guard shared by `sc_absorb_stop` and `sc_absorb_nibble`: a shuffle
      when a has reached n/2, which leaves room for one more step. */
  function ShuffleIfFull(c: Context): (r: Context)
    requires WellFormed(c)
    ensures WellFormed(r)
    ensures r.a < r.n / 2
    ensures c.a < c.n / 2 ==> r == c
    ensures c.a == c.n / 2 ==> r.a == 0 && Coprime(r.w, r.n)
    ensures r.n == c.n && r.z == c.z && r.d == c.d
    ensures multiset(r.state) == multiset(c.state)
  {
    if c.a == c.n / 2 then Shuffle(c) else c
  }

  /** `sc_absorb_stop`: shuffles when a == n/2, then increments a mod n.
      Below n/2 it changes a alone and leaves the array untouched. */
  function AbsorbStop(c: Context): (r: Context)
    requires WellFormed(c)
    ensures WellFormed(r)
    ensures r.a == NextCount(c) && r.a > 0
    ensures r.n == c.n && r.z == c.z && r.d == c.d
    ensures multiset(r.state) == multiset(c.state)
    ensures c.a < c.n / 2 ==> r == c.(a := c.a + 1)
  {
    var s := ShuffleIfFull(c);
    s.(a := Reduce(s.a + 1, s.n))
  }

  /** `sc_absorb_nibble`: shuffles when a == n/2, exchanges the entries at
      a and n/2 + x, then increments a mod n. */
  function AbsorbNibble(c: Context, x: Byte): (r: Context)
    requires WellFormed(c)
    ensures WellFormed(r)
    ensures r.a == NextCount(c) && r.a > 0
    ensures r.n == c.n && r.z == c.z && r.d == c.d
    ensures multiset(r.state) == multiset(c.state)
  {
    var s := ShuffleIfFull(c);
    s.(state := Swap(s.state, s.a, s.n / 2 + x), a := Reduce(s.a + 1, s.n))
  }

  /** A nibble is a stop plus one exchange: the entry at the position a held
      before the increment trades places with the one at n/2 + x. */
  lemma NibbleIsStopPlusSwap(c: Context, x: Byte)
    requires WellFormed(c)
    ensures var s := AbsorbStop(c);
      AbsorbNibble(c, x) == s.(state := Swap(s.state, s.a - 1, s.n / 2 + x))
  {
    var p := ShuffleIfFull(c);
    assert AbsorbStop(c).a - 1 == p.a;
  }

  /** Below n/2 a nibble keeps every register but a and moves exactly two
      entries of the array: those at a and at (n/2 + x) mod n. */
  lemma NibbleExchanges(c: Context, x: Byte)
    requires WellFormed(c) && c.a < c.n / 2
    ensures var r := AbsorbNibble(c, x); var p := Reduce(c.n / 2 + x, c.n);
      && r.i == c.i && r.j == c.j && r.k == c.k && r.w == c.w
      && r.state[c.a] == c.state[p] && r.state[p] == c.state[c.a]
      && forall q :: 0 <= q < c.n && q != c.a && q != p ==> r.state[q] == c.state[q]
  {
  }

  /** `sc_absorb_byte`: b is reduced mod n, then its low digit and its high
      digit are absorbed, in that order. */
  function AbsorbByte(c: Context, b: Byte): (r: Context)
    requires WellFormed(c)
    ensures WellFormed(r)
    ensures r.a > 0
    ensures r.n == c.n && r.z == c.z && r.d == c.d
    ensures multiset(r.state) == multiset(c.state)
  {
    var v := Reduce(b, c.n);
    var c1 := AbsorbNibble(c, Low(v, c.d));
    AbsorbNibble(c1, High(v, c1.d))
  }

  /** `sc_absorb_buffer`: the bytes of data absorbed front to back. */
  function AbsorbBuffer(c: Context, data: seq<Byte>): (r: Context)
    requires WellFormed(c)
    ensures WellFormed(r)
    ensures |data| == 0 ==> r == c
    ensures |data| > 0 ==> r.a > 0
    ensures r.n == c.n && r.z == c.z && r.d == c.d
    ensures multiset(r.state) == multiset(c.state)
    decreases |data|
  {
    if |data| == 0 then c
    else AbsorbBuffer(AbsorbByte(c, data[0]), data[1..])
  }

  /** Absorbing two buffers one after the other is absorbing their
      concatenation, so input may be fed in pieces. */
  lemma {:induction false} AbsorbBufferAppend(c: Context, x: seq<Byte>, y: seq<Byte>)
    requires WellFormed(c)
    ensures AbsorbBuffer(c, x + y) == AbsorbBuffer(AbsorbBuffer(c, x), y)
    decreases |x|
  {
    if |x| == 0 {
      assert x + y == y;
    } else {
      assert (x + y)[1..] == x[1..] + y;
      AbsorbBufferAppend(AbsorbByte(c, x[0]), x[1..], y);
    }
  }

  /** Absorbing keeps the invariant: the array is only permuted, and the
      stride changes only through a shuffle, which leaves it coprime with n. */
  lemma AbsorbKeepsValid(c: Context, x: Byte, data: seq<Byte>)
    requires Valid(c)
    ensures Valid(AbsorbStop(c))
    ensures Valid(AbsorbNibble(c, x))
    ensures Valid(AbsorbByte(c, x))
    ensures Valid(AbsorbBuffer(c, data))
  {
    AbsorbByteKeepsValid(c, x);
    AbsorbBufferKeepsValid(c, data);
  }

  lemma AbsorbByteKeepsValid(c: Context, b: Byte)
    requires Valid(c)
    ensures Valid(AbsorbByte(c, b))
  {
    var v := Reduce(b, c.n);
    var c1 := AbsorbNibble(c, Low(v, c.d));
    assert Valid(c1);
  }

  lemma {:induction false} AbsorbBufferKeepsValid(c: Context, data: seq<Byte>)
    requires Valid(c)
    ensures Valid(AbsorbBuffer(c, data))
    decreases |data|
  {
    if |data| > 0 {
      AbsorbByteKeepsValid(c, data[0]);
      AbsorbBufferKeepsValid(AbsorbByte(c, data[0]), data[1..]);
    }
  }
}
