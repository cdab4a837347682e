/** The public operations of spritz.c: construction (`sc_alloc3`,
    `sc_alloc5`), the stream cipher (`sc_encrypt`, `sc_decrypt`) and the
    one-call digest (`sc_hash`). Allocation is modelled by an `Option`: the
    construction refuses the sizes for which the state machine is not
    defined, where the source accepts them. */
module Spritz {
  import opened Arith
  import opened SpritzContext
  import opened Mixing
  import opened Absorption
  import opened Extraction

  /** The state `sc_alloc3` lays out before absorbing the key: every register
      zero except the stride w == 1, d the ceiling square root of n, and the
      identity permutation in the array. */
  function Initial(n: nat): (c: Context)
    requires ValidSize(n)
    ensures WellFormed(c) && c.n == n && c.a == 0
  {
    DigitBase(n);
    Context(n, 0, 0, 0, 0, 0, 1, CeilSqrt(n), Identity(n))
  }

  /** The initial state satisfies the invariant. */
  lemma InitialValid(n: nat)
    requires ValidSize(n)
    ensures Valid(Initial(n))
  {
    CoprimeOneNotZero(n);
  }

  /** `sc_alloc3`, with the size check the whip search needs: a context of
      size n with the key absorbed, or None when n is outside 2..256. */
  function Alloc(key: seq<Byte>, n: nat): (r: Option<Context>)
    ensures r.Some? <==> ValidSize(n)
    ensures r.Some? ==> WellFormed(r.value) && r.value.n == n
    ensures r.Some? && |key| == 0 ==> r.value == Initial(n)
  {
    if ValidSize(n) then Some(AbsorbBuffer(Initial(n), key)) else None
  }

  /** A constructed context satisfies the invariant. */
  lemma AllocValid(key: seq<Byte>, n: nat)
    requires ValidSize(n)
    ensures Valid(Alloc(key, n).value)
  {
    InitialValid(n);
    AbsorbKeepsValid(Initial(n), 0, key);
  }

  /** The key may be absorbed in pieces: constructing with k1 + k2 is
      constructing with k1 and absorbing k2 afterwards. */
  lemma AllocAppend(k1: seq<Byte>, k2: seq<Byte>, n: nat)
    requires ValidSize(n)
    ensures Alloc(k1 + k2, n).value == AbsorbBuffer(Alloc(k1, n).value, k2)
  {
    AbsorbBufferAppend(Initial(n), k1, k2);
  }

  /** `sc_alloc5`: construction with the key, then a stop, then the
      initialisation vector. */
  function AllocWithIv(key: seq<Byte>, iv: seq<Byte>, n: nat): (r: Option<Context>)
    ensures r.Some? <==> ValidSize(n)
    ensures r.Some? ==> WellFormed(r.value) && r.value.n == n && r.value.a > 0
  {
    match Alloc(key, n)
    case None => None
    case Some(c) => Some(AbsorbBuffer(AbsorbStop(c), iv))
  }

  /** A context constructed with an initialisation vector satisfies the
      invariant. */
  lemma AllocWithIvValid(key: seq<Byte>, iv: seq<Byte>, n: nat)
    requires ValidSize(n)
    ensures Valid(AllocWithIv(key, iv, n).value)
  {
    var c := Alloc(key, n).value;
    AllocValid(key, n);
    AbsorbKeepsValid(c, 0, iv);
    AbsorbKeepsValid(AbsorbStop(c), 0, iv);
  }

  /** One byte of `sc_encrypt`: the sum is formed in `size_t`, where it
      cannot overflow, and reduced mod n. */
  function EncryptByte(x: Byte, k: Byte, n: nat): (r: Byte)
    requires ValidSize(n)
    ensures r < n
  {
    Reduce(x + k, n)
  }

  /** 2^64: `size_t` arithmetic is modulo this. */
  const SizeModulus: nat := 0x1_0000_0000_0000_0000

  /** One byte of `sc_decrypt` as written: the difference is formed in
      `size_t`, so a keystream byte above the ciphertext byte wraps the
      difference around 2^64 before the reduction mod n. */
  function DecryptByteAsWritten(x: Byte, k: Byte, n: nat): (r: Byte)
    requires ValidSize(n)
    ensures r < n
  {
    Reduce(if k <= x then x - k else SizeModulus + x - k, n)
  }

  /** One byte of decryption as evidently intended: the keystream byte is
      subtracted mod n, by adding its additive inverse. */
  function DecryptByte(x: Byte, k: Byte, n: nat): (r: Byte)
    requires ValidSize(n)
    ensures r < n
  {
    Reduce(x + n - Reduce(k, n), n)
  }

  /** DecryptByte is subtraction mod n. */
  lemma DecryptByteIsDifference(x: Byte, k: Byte, n: nat)
    requires ValidSize(n)
    ensures DecryptByte(x, k, n) == (x - k) % n
  {
    var q, rk := Quot(k, n), Reduce(k, n);
    QuotReduce(k, n);
    SubtractRemainder(x, k, n, q, rk);
    ReduceIsMod(x + n - rk, n);
    ModAddMultiple(x - k, q + 1, n);
  }

  /** DecryptByte undoes EncryptByte for every plaintext byte below n. */
  lemma DecryptByteInverts(x: Byte, k: Byte, n: nat)
    requires ValidSize(n) && x < n
    ensures DecryptByte(EncryptByte(x, k, n), k, n) == x
  {
    var rk := Reduce(k, n);
    ReduceAddReduce(k, x, n);
    ReduceAddReduce(rk + x, n - rk, n);
    assert rk + x + (n - rk) == x + 1 * n;
    ReduceAddMultiple(x, 1, n);
  }

  /** The source's byte decryption reduces the difference mod 2^64 and then
      mod n. */
  lemma DecryptAsWrittenIsWrappedDifference(x: Byte, k: Byte, n: nat)
    requires ValidSize(n)
    ensures DecryptByteAsWritten(x, k, n) == ((x - k) % SizeModulus) % n
  {
    var v := if k <= x then x - k else SizeModulus + x - k;
    ReduceIsMod(v, n);
    if k <= x {
      DivModUnique(x - k, 0, x - k, SizeModulus);
    } else {
      DivModUnique(x - k, -1, v, SizeModulus);
    }
  }

  /** When n divides 2^64, as every power of two up to 256 does, the
      wrap-around is invisible after the reduction mod n. */
  lemma DecryptAsWrittenAgrees(x: Byte, k: Byte, n: nat)
    requires ValidSize(n) && SizeModulus % n == 0
    ensures DecryptByteAsWritten(x, k, n) == DecryptByte(x, k, n)
  {
    var q, rk := Quot(k, n), Reduce(k, n);
    QuotReduce(k, n);
    if k <= x {
      SubtractRemainder(x, k, n, q, rk);
      ReduceAddMultiple(x - k, q + 1, n);
    } else {
      WrappedAgrees(x, k, n, q, rk);
    }
  }

  /** The wrapped case of DecryptAsWrittenAgrees: k = q * n + rk exceeds x,
      and 2^64 + x - k lies a multiple of n above x + n - rk. */
  lemma WrappedAgrees(x: Byte, k: Byte, n: nat, q: nat, rk: nat)
    requires ValidSize(n) && SizeModulus % n == 0
    requires x < k && q * n + rk == k && rk < n
    ensures Reduce(SizeModulus + x - k, n) == Reduce(x + n - rk, n)
  {
    var t := SizeModulus / n;
    DivisorQuotient(n);
    WrapOffset(x, k, n, q, rk, t);
    ReduceAddMultiple(x + n - rk, t - q - 1, n);
  }

  /** Subtracting k = q * n + rk rather than its remainder rk shifts the
      value down by q + 1 multiples of n from x + n - rk. */
  lemma SubtractRemainder(x: int, k: int, n: int, q: int, rk: int)
    requires q * n + rk == k
    ensures x + n - rk == (x - k) + (q + 1) * n
  {
  }

  /** A divisor n of 2^64 times the quotient gives 2^64 back. */
  lemma DivisorQuotient(n: int)
    requires n > 0 && SizeModulus % n == 0
    ensures SizeModulus / n * n == SizeModulus
  {
  }

  /** The wrapped difference exceeds the intended one by a multiple of n. */
  lemma WrapOffset(x: int, k: int, n: int, q: int, rk: int, t: int)
    requires n > 0 && q >= 0 && rk >= 0 && q * n + rk == k && k < 256 && t * n == SizeModulus
    ensures t - q - 1 >= 0
    ensures SizeModulus + x - k == (x + n - rk) + (t - q - 1) * n
  {
    if t < q + 1 {
      MulMonotone(q + 1, t, n);
    }
  }

  /** For n == 3 the wrap-around breaks decryption: plaintext 2 under
      keystream byte 2 encrypts to 1, which the source decrypts to 0. */
  lemma DecryptAsWrittenFails()
    ensures EncryptByte(2, 2, 3) == 1
    ensures DecryptByte(1, 2, 3) == 2
    ensures DecryptByteAsWritten(1, 2, 3) == 0
  {
    ReduceIsMod(SizeModulus - 1, 3);
    DivModUnique(SizeModulus - 1, 6148914691236517205, 0, 3);
  }

  /** For every size that does not divide 2^64 the source's decryption
      fails on some byte: plaintext n - 1 under keystream byte 1 encrypts
      to 0, and 0 minus 1 wraps to 2^64 - 1, which is not n - 1 mod n. */
  lemma DecryptAsWrittenFailsUnlessDivides(n: nat)
    requires ValidSize(n) && SizeModulus % n != 0
    ensures EncryptByte(n - 1, 1, n) == 0
    ensures DecryptByteAsWritten(0, 1, n) != n - 1
  {
    ReduceAddMultiple(0, 1, n);
    if Reduce(SizeModulus - 1, n) == n - 1 {
      var q := Quot(SizeModulus - 1, n);
      QuotReduce(SizeModulus - 1, n);
      assert SizeModulus == (q + 1) * n;
      DivModUnique(SizeModulus, q + 1, 0, n);
    }
  }

  /** The byte operations of the stream cipher: `sc_encrypt`, `sc_decrypt`
      as written, and `sc_decrypt` as evidently intended. */
  datatype Direction = Encrypting | DecryptingAsWritten | Decrypting

  /** One data byte combined with one keystream byte. */
  function CombineByte(dir: Direction, x: Byte, k: Byte, n: nat): (r: Byte)
    requires ValidSize(n)
    ensures r < n
  {
    match dir
    case Encrypting => EncryptByte(x, k, n)
    case DecryptingAsWritten => DecryptByteAsWritten(x, k, n)
    case Decrypting => DecryptByte(x, k, n)
  }

  /** The data combined front to back with an equally long keystream. */
  function Combine(dir: Direction, data: seq<Byte>, keys: seq<Byte>, n: nat): (r: seq<Byte>)
    requires ValidSize(n) && |keys| == |data|
    ensures |r| == |data|
    ensures AllBelow(r, n)
    decreases |data|
  {
    if |data| == 0 then []
    else
      var rest := Combine(dir, data[1..], keys[1..], n);
      assert ([CombineByte(dir, data[0], keys[0], n)] + rest)[1..] == rest;
      [CombineByte(dir, data[0], keys[0], n)] + rest
  }

  /** Byte x of a combination is data byte x combined with keystream
      byte x: no byte depends on its neighbours. */
  lemma {:induction false} CombineAt(dir: Direction, data: seq<Byte>, keys: seq<Byte>, n: nat)
    requires ValidSize(n) && |keys| == |data|
    ensures forall x :: 0 <= x < |data| ==>
      Combine(dir, data, keys, n)[x] == CombineByte(dir, data[x], keys[x], n)
    decreases |data|
  {
    if |data| > 0 {
      CombineAt(dir, data[1..], keys[1..], n);
    }
  }

  /** Combining with [k] + keys combines the first byte with k and the
      rest with keys. */
  lemma CombineFront(dir: Direction, data: seq<Byte>, k: Byte, keys: seq<Byte>, n: nat)
    requires ValidSize(n) && |data| == |keys| + 1
    ensures Combine(dir, data, [k] + keys, n)
      == [CombineByte(dir, data[0], k, n)] + Combine(dir, data[1..], keys, n)
  {
    assert ([k] + keys)[1..] == keys;
  }

  /** Decrypting as intended with a keystream undoes encrypting with the
      same keystream, for data bytes below n. */
  lemma CombineInverts(data: seq<Byte>, keys: seq<Byte>, n: nat)
    requires ValidSize(n) && |keys| == |data|
    requires forall v :: 0 <= v < |data| ==> data[v] < n
    ensures Combine(Decrypting, Combine(Encrypting, data, keys, n), keys, n) == data
  {
    var cipher := Combine(Encrypting, data, keys, n);
    CombineAt(Encrypting, data, keys, n);
    CombineAt(Decrypting, cipher, keys, n);
    forall x | 0 <= x < |data|
      ensures Combine(Decrypting, cipher, keys, n)[x] == data[x]
    {
      DecryptByteInverts(data[x], keys[x], n);
    }
  }

  /** Whenever n divides 2^64 the source's decryption and the intended one
      agree on every keystream. */
  lemma CombineAsWrittenAgrees(data: seq<Byte>, keys: seq<Byte>, n: nat)
    requires ValidSize(n) && |keys| == |data| && SizeModulus % n == 0
    ensures Combine(DecryptingAsWritten, data, keys, n) == Combine(Decrypting, data, keys, n)
  {
    CombineAt(DecryptingAsWritten, data, keys, n);
    CombineAt(Decrypting, data, keys, n);
    forall x | 0 <= x < |data|
      ensures Combine(DecryptingAsWritten, data, keys, n)[x] == Combine(Decrypting, data, keys, n)[x]
    {
      DecryptAsWrittenAgrees(data[x], keys[x], n);
    }
  }

  /** `sc_encrypt` and `sc_decrypt`: the data combined with the bytes
      squeezed from the context, as many as there are data bytes. The
      source squeezes them one `sc_squeeze_byte` per data byte, which
      TransformStep shows to be the same. */
  function Transform(c: Context, data: seq<Byte>, dir: Direction): (res: (Context, seq<Byte>))
    requires WellFormed(c)
    ensures WellFormed(res.0) && res.0.n == c.n
    ensures |res.1| == |data| && AllBelow(res.1, c.n)
    ensures |data| == 0 ==> res == (c, [])
    ensures multiset(res.0.state) == multiset(c.state)
  {
    var s := Squeeze(c, |data|);
    (s.0, Combine(dir, data, s.1, c.n))
  }

  /** Encrypting and decrypting keep the invariant: the array stays a
      permutation and the stride coprime with n. */
  lemma TransformKeepsValid(c: Context, data: seq<Byte>, dir: Direction)
    requires Valid(c)
    ensures Valid(Transform(c, data, dir).0)
  {
    SqueezeKeepsValid(c, |data|);
  }

  /** The loop of `sc_encrypt` and `sc_decrypt`: the first byte is
      combined with the byte `sc_squeeze_byte` returns, and the rest of
      the data is processed from the context that leaves. */
  lemma TransformStep(c: Context, data: seq<Byte>, dir: Direction)
    requires WellFormed(c) && |data| > 0
    ensures var b := SqueezeByte(c); var rest := Transform(b.0, data[1..], dir);
      Transform(c, data, dir) == (rest.0, [CombineByte(dir, data[0], b.1, c.n)] + rest.1)
  {
    var b := SqueezeByte(c);
    SqueezeStep(c, |data|);
    CombineFront(dir, data, b.1, Squeeze(b.0, |data| - 1).1, c.n);
  }

  /** Decryption as intended undoes encryption from the same state for
      every plaintext whose bytes are below n (all plaintexts when n == 256):
      both draw the same keystream, since it depends on the length alone. */
  lemma DecryptInvertsEncrypt(c: Context, data: seq<Byte>)
    requires WellFormed(c)
    requires forall v :: 0 <= v < |data| ==> data[v] < c.n
    ensures Transform(c, Transform(c, data, Encrypting).1, Decrypting).1 == data
  {
    CombineInverts(data, Squeeze(c, |data|).1, c.n);
  }

  /** The source's decryption agrees with the intended one whenever n
      divides 2^64, so for those sizes it also undoes encryption. */
  lemma DecryptAsWrittenAgreesOnPowersOfTwo(c: Context, data: seq<Byte>)
    requires WellFormed(c) && SizeModulus % c.n == 0
    ensures Transform(c, data, DecryptingAsWritten).1 == Transform(c, data, Decrypting).1
  {
    CombineAsWrittenAgrees(data, Squeeze(c, |data|).1, c.n);
  }

  /** For the sizes that divide 2^64 the source's own decryption undoes
      encryption from the same state, for plaintext bytes below n. */
  lemma SourceDecryptInvertsOnPowersOfTwo(c: Context, data: seq<Byte>)
    requires WellFormed(c) && SizeModulus % c.n == 0
    requires forall v :: 0 <= v < |data| ==> data[v] < c.n
    ensures Transform(c, Transform(c, data, Encrypting).1, DecryptingAsWritten).1 == data
  {
    var cipher := Transform(c, data, Encrypting).1;
    DecryptInvertsEncrypt(c, data);
    DecryptAsWrittenAgreesOnPowersOfTwo(c, cipher);
  }

  /** The state after encrypting or decrypting depends on the length of the
      data alone, whatever the bytes and the direction: two parties that
      start from equal states stay in step. */
  lemma TransformStateIgnoresData(c: Context, x: seq<Byte>, y: seq<Byte>, dx: Direction, dy: Direction)
    requires WellFormed(c) && |x| == |y|
    ensures Transform(c, x, dx).0 == Transform(c, y, dy).0
  {
  }

  /** A digest is squeezed from a keyed context: hashing data is
      constructing with data as the key, absorbing a stop and the digest
      size, and squeezing that many bytes. */
  lemma HashIsKeyedSqueeze(data: seq<Byte>, hashSize: Byte, n: nat)
    requires ValidSize(n) && hashSize < n
    ensures var c := AbsorbByte(AbsorbStop(Alloc(data, n).value), hashSize);
      Hash(data, hashSize, n) == Some(Squeeze(c, hashSize).1)
  {
  }

  /** The context a digest is squeezed from satisfies the invariant, so the
      digest bytes are drawn from a permutation with a coprime stride. */
  lemma HashDrawsFromValidState(data: seq<Byte>, hashSize: Byte, n: nat)
    requires ValidSize(n)
    ensures var c := AbsorbByte(AbsorbStop(Alloc(data, n).value), hashSize);
      Valid(c) && Valid(Squeeze(c, hashSize).0)
  {
    var c := Alloc(data, n).value;
    AllocValid(data, n);
    AbsorbKeepsValid(c, hashSize, []);
    AbsorbKeepsValid(AbsorbStop(c), hashSize, []);
    SqueezeKeepsValid(AbsorbByte(AbsorbStop(c), hashSize), hashSize);
  }

  /** `sc_hash`: None when hash_sz >= n (the source returns 0 and writes
      nothing); otherwise the hash_sz bytes squeezed after absorbing the
      data, a stop and hash_sz into a context built with an empty key. A
      size the construction refuses (only n == 1 can get that far) writes
      nothing. */
  function Hash(data: seq<Byte>, hashSize: Byte, n: nat): (r: Option<seq<Byte>>)
    requires n <= MaxN
    ensures r.None? <==> hashSize >= n
    ensures r.Some? ==> |r.value| == hashSize
    ensures r.Some? ==> AllBelow(r.value, n)
  {
    if hashSize >= n then None
    else
      match Alloc([], n)
      case None => Some([])
      case Some(c) =>
        var absorbed := AbsorbByte(AbsorbStop(AbsorbBuffer(c, data)), hashSize);
        Some(Squeeze(absorbed, hashSize).1)
  }
}
