# Spritz state machine in Dafny

A functional model of `spritz.c`, an unoptimised reference implementation of
Rivest and Schuldt's Spritz sponge. Spritz is an RC4-like stream cipher and
hash function. Its state is a record with these parts:

- the state size n;
- the byte registers i, j, k, z, a, w and d;
- an array holding a permutation of 0..n-1.

The model makes every C routine a pure function from one state to the next.
It proves the following facts about it:

- **Permutation.** The array stays a permutation: every change is an exchange.
- **Register bounds.** i, j, k, z and w stay below n, a stays at most n/2, and d is the constant CeilSqrt(n), between 2 and 16.
- **Stride.** The stride w stays coprime with n.
- **Crush.** `sc_crush` orders each mirrored pair.
- **Digit split.** Splitting a byte into base-d digits loses nothing.
- **Squeeze.** A squeeze writes exactly the requested number of bytes, each below n.
- **Round trip.** Decryption as evidently intended (subtraction mod n) undoes encryption from the same state, for plaintext bytes below n. The source's own decryption does so exactly for the sizes that divide 2^64 (the powers of two); for every other size some byte is not recovered.

The modules follow the layers of the source:

| file | module | contents |
|---|---|---|
| `arith.dfy` | `Arith` | `gcd`, the integer ceiling square root used for d, and the mod-n arithmetic everything else uses |
| `context.dfy` | `SpritzContext` | the context record, the invariant, and `sc_state`/`sc_swap` |
| `mixing.dfy` | `Mixing` | `sc_update`, `sc_whip` and its coprime search, `sc_crush`, `sc_shuffle` |
| `absorb.dfy` | `Absorption` | `sc_low`, `sc_high`, `sc_absorb_nibble`, `sc_absorb_byte`, `sc_absorb_stop`, `sc_absorb_buffer` |
| `extract.dfy` | `Extraction` | `sc_output`, `sc_drip`, `sc_squeeze`, `sc_squeeze_byte` |
| `spritz.dfy` | `Spritz` | `sc_alloc3`, `sc_alloc5`, `sc_encrypt`, `sc_decrypt`, `sc_hash` |

The full invariant `SpritzContext.Valid` has two parts:

- **Shape.** `SpritzContext.WellFormed` requires 2 <= n <= 256, n array entries, i, j, k, z and w below n, a <= n/2 and d > 0.
- **Content.** d is the ceiling square root of n, w is coprime with n, and the array is a permutation of 0..n-1.

Every operation keeps the shape by its own contract. A lemma per operation shows the whole invariant is kept: update, whip, shuffle, each absorb step, squeeze, construction, encryption and decryption, and the state a digest is drawn from.

The model follows `spritz.c` as written. Where the code departs from what it evidently intends, both behaviours are modelled and the difference is recorded under Findings. The exception is departures that depend on allocation, which is not modelled. One such is `sc_hash` returning 1 after a failed allocation, where spritz.h:42 documents 0; these are listed under Left out.

## Model

| member | source | states |
|---|---|---|
| Arith.Gcd | spritz.c:71-83 | the scan returns 0 exactly when one argument is 0, and never more than either argument |
| Arith.GcdIsGreatestCommonDivisor | spritz.c:71-83 | for positive arguments the scan returns a common divisor that bounds every other common divisor |
| Arith.CoprimeOneNotZero | spritz.c:98-100 | for every n >= 1, gcd(1, n) == 1 while gcd(0, n) == 0, so the stride search can stop at 1 and never at 0 |
| Arith.CeilSqrtIsLeast | spritz.c:256 | the digit base is the least d with d * d >= n |
| SpritzContext.DigitBase | spritz.c:256 | for sizes 2..256 the digit base lies in 2..16 and its square covers n |
| SpritzContext.Identity | spritz.c:258-260 | the initial array has n entries and entry x holds x |
| SpritzContext.Swap | spritz.c:48-60 | the entries at p mod n and q mod n trade places, every other entry stays, the multiset is unchanged |
| SpritzContext.At | spritz.c:63-68 | a read returns one of the array's entries, and for a position below n the entry at that position |
| SpritzContext.AtPeriodic | spritz.c:63-68 | positions x and x + m * n read the same entry |
| SpritzContext.SwapInvolution | spritz.c:48-60 | swapping the same two positions twice restores the array |
| Mixing.Update | spritz.c:145-155 | i advances by the stride w mod n; a, w, z and d are untouched; the array is only permuted |
| Mixing.UpdateExchanges | spritz.c:154 | exactly the entries at the new i and the new j trade places |
| Mixing.UpdateKeepsValid | spritz.c:145-155 | an update keeps the full invariant |
| Mixing.Updates | spritz.c:94-96 | repeated updates change only i, j, k and the order of the array |
| Mixing.NextCoprime | spritz.c:98-100 | the new stride is below n, coprime with n and never 0 |
| Mixing.NextCoprimeIsFirst | spritz.c:98-100 | the new stride is the first value after w, cyclically, that is coprime with n: every value tried before it fails the test, and it is met no later than 1 |
| Mixing.SearchAsWritten | spritz.c:98-100 | wherever the loop as written stops, the value is below n and coprime with n |
| Mixing.SearchNeverEndsForSizeOne | spritz.c:98-100 | for n == 1 the loop never stops, from any start value (the stride 1 construction sets included), however many increments it is allowed |
| Mixing.SearchReachesNextCoprime | spritz.c:98-100 | for n >= 2 the loop stops at the first coprime value once allowed the increments separating the two |
| Mixing.SearchStopsWithinSize | spritz.c:98-100 | for n >= 2 the loop stops within n increments, at the first coprime value |
| Mixing.Whip | spritz.c:86-101 | with r == 0 nothing changes; otherwise the stride becomes the next coprime value, a, z and d are kept and the array is only permuted |
| Mixing.WhipKeepsValid | spritz.c:86-101 | a whip keeps the full invariant |
| Mixing.CompareExchange | spritz.c:111-115 | afterwards the smaller of the two entries is at the lower position and the greater at its mirror; nothing else moves |
| Mixing.CrushFrom | spritz.c:111-115 | the loop only permutes the array |
| Mixing.CrushFromOrders | spritz.c:111-115 | from position v on, each remaining mirrored pair holds its two values in order, and entries outside those pairs do not move |
| Mixing.Crush | spritz.c:104-116 | only the array changes, and only by exchanges |
| Mixing.CrushSortsPairs | spritz.c:104-116 | each mirrored pair keeps its two values with the smaller below; for odd n the middle entry stays |
| Mixing.CrushOrdersMirrors | spritz.c:111-115 | afterwards every entry of the lower half is at most its mirror |
| Mixing.Shuffle | spritz.c:182-193 | the counter a is reset to 0, the stride is coprime with n, n, z and d are kept and the array is only permuted |
| Mixing.ShuffleKeepsValid | spritz.c:182-193 | a shuffle keeps the full invariant |
| Absorption.Low | spritz.c:41-45 | the low digit is below d and is the value itself when the value is below d |
| Absorption.High | spritz.c:33-38 | the high digit is at most the value and is 0 when the value is below d |
| Absorption.DigitsLossless | spritz.c:33-45 | a value below d * d is recovered from its two digits, both below d, and from no other pair of digits below d |
| Absorption.ByteDigitsBelowBase | spritz.c:200-202 | in a valid context both digits of a reduced byte are below d and give the reduced byte back |
| Absorption.ShuffleIfFull | spritz.c:233 | a shuffle happens exactly when a == n/2, and afterwards a is below n/2 |
| Absorption.AbsorbStop | spritz.c:219-226 | a advances to the next count and is positive; below n/2 nothing else changes, the array included |
| Absorption.AbsorbNibble | spritz.c:229-238 | a advances to the next count and is positive; the array is only permuted |
| Absorption.NibbleIsStopPlusSwap | spritz.c:229-238 | a nibble is a stop plus the exchange of the entry at the old a with the entry at n/2 + x |
| Absorption.NibbleExchanges | spritz.c:235 | below n/2 a nibble moves exactly the entries at a and at (n/2 + x) mod n and keeps i, j, k and w |
| Absorption.AbsorbByte | spritz.c:196-203 | absorbing a byte leaves input pending (a > 0), keeps n, z and d, and only permutes the array |
| Absorption.AbsorbBuffer | spritz.c:206-216 | an empty buffer changes nothing; a non-empty one leaves input pending and only permutes the array |
| Absorption.AbsorbBufferAppend | spritz.c:206-216 | absorbing x then y is absorbing x + y |
| Absorption.AbsorbKeepsValid | spritz.c:196-238 | stop, nibble, byte and buffer absorption each keep the full invariant |
| Extraction.Output | spritz.c:158-169 | only z changes, and it stays below n |
| Extraction.OutputIsEntry | spritz.c:162-168 | in a valid context the byte returned is one of the array's entries |
| Extraction.ShuffleIfPending | spritz.c:176 | afterwards no input is pending; with none pending nothing changes, otherwise the stride is coprime with n |
| Extraction.Drip | spritz.c:172-179 | afterwards no input is pending, the stride is coprime with n whenever a shuffle ran or it already was, and the array is only permuted |
| Extraction.DripWithoutPending | spritz.c:172-179 | with no input pending a drip keeps the stride and counters, advances i by w, and changes the array by exactly one exchange, of the entries at the new i and new j |
| Extraction.DripN | spritz.c:129-131 | count drips write count bytes, each below n, and leave no input pending when count > 0 |
| Extraction.Squeeze | spritz.c:119-132 | with r == 0 nothing changes; otherwise exactly r bytes, each below n, are written and no input is left pending |
| Extraction.SqueezeBelowSize | spritz.c:119-132 | every byte a squeeze writes is below n |
| Extraction.SqueezeByte | spritz.c:135-142 | the returned byte is below n and no input is left pending |
| Extraction.SqueezeByteIsDrip | spritz.c:135-142 | squeezing one byte is one drip, and the byte is the new z |
| Extraction.SqueezeStep | spritz.c:129-131 | squeezing k > 0 bytes is squeezing one byte and then k - 1 more from the state it leaves |
| Extraction.SqueezeKeepsValid | spritz.c:119-142 | squeezing keeps the full invariant |
| Spritz.Initial | spritz.c:248-260 | the initial state is well formed, of the requested size, with nothing absorbed |
| Spritz.InitialValid | spritz.c:248-260 | the initial state satisfies the full invariant |
| Spritz.Alloc | spritz.c:241-265 | construction succeeds exactly for sizes 2..256, gives a context of that size, and with an empty key gives the initial state |
| Spritz.AllocValid | spritz.c:241-265 | a constructed context satisfies the full invariant |
| Spritz.AllocAppend | spritz.c:262 | constructing with k1 + k2 is constructing with k1 and absorbing k2 afterwards |
| Spritz.AllocWithIv | spritz.c:268-278 | construction with an initialisation vector succeeds exactly for sizes 2..256 and leaves input pending |
| Spritz.AllocWithIvValid | spritz.c:268-278 | a context constructed with an initialisation vector satisfies the full invariant |
| Spritz.EncryptByte | spritz.c:296 | an encrypted byte is below n |
| Spritz.DecryptByteAsWritten | spritz.c:308 | a byte decrypted as written is below n |
| Spritz.DecryptAsWrittenIsWrappedDifference | spritz.c:308 | the source reduces the difference mod 2^64 before reducing it mod n |
| Spritz.DecryptByte | spritz.c:308 | the intended decrypted byte is below n |
| Spritz.DecryptByteIsDifference | spritz.c:308 | the intended decryption is the difference mod n |
| Spritz.DecryptByteInverts | spritz.c:289-310 | the intended byte decryption undoes byte encryption for every plaintext byte below n and every keystream byte |
| Spritz.DecryptAsWrittenAgrees | spritz.c:308 | when n divides 2^64 the source's byte decryption equals the intended one |
| Spritz.DecryptAsWrittenFails | spritz.c:308 | for n == 3, plaintext 2 under keystream byte 2 encrypts to 1, which the source decrypts to 0 |
| Spritz.DecryptAsWrittenFailsUnlessDivides | spritz.c:308 | for every size that does not divide 2^64, plaintext n - 1 under keystream byte 1 is not recovered by the source |
| Spritz.Transform | spritz.c:289-310 | encryption and decryption keep the context well formed and of the same size, only permute the array, and give one byte below n per data byte; empty data changes nothing |
| Spritz.TransformKeepsValid | spritz.c:289-310 | encryption and decryption keep the full invariant |
| Spritz.TransformStep | spritz.c:289-310 | the first data byte is combined with the byte the next squeeze returns, and the rest is processed from the state that squeeze leaves |
| Spritz.TransformStateIgnoresData | spritz.c:289-310 | the state after encrypting or decrypting depends only on the length of the data, not on its bytes or the direction |
| Spritz.DecryptInvertsEncrypt | spritz.c:289-310 | from the same state, intended decryption undoes encryption for every plaintext with bytes below n |
| Spritz.DecryptAsWrittenAgreesOnPowersOfTwo | spritz.c:301-310 | when n divides 2^64 the source's decryption equals the intended one on every input |
| Spritz.SourceDecryptInvertsOnPowersOfTwo | spritz.c:289-310 | when n divides 2^64 the source's own decryption undoes encryption from the same state |
| Spritz.HashIsKeyedSqueeze | spritz.c:321-326 | a digest is the squeeze that follows constructing with the data as key and absorbing a stop and the digest size |
| Spritz.HashDrawsFromValidState | spritz.c:321-326 | the contexts a digest is squeezed from, and left in, satisfy the full invariant |
| Spritz.Hash | spritz.c:313-330 | no digest exactly when hash_sz >= n; otherwise exactly hash_sz bytes, each below n |

## Left out

- Memory management is not modelled: `malloc`, `free`, the NULL returns of `sc_alloc3` and `sc_alloc5`, and `sc_free` (spritz.c:245-251, 281-286). Construction is a pure function.
- The return value 1 of `sc_hash` after a failed allocation, and the context it never frees (spritz.c:321-329), depend on allocation, which is not modelled.
- The floating-point `ceil(sqrt(n))` at spritz.c:256 is replaced by the integer ceiling square root `Arith.CeilSqrt`. For n <= 256 the double arithmetic gives that value.
- The `assert` at spritz.c:318 is not modelled; only the explicit `return 0` after it is.
- The `uint8_t` casts on registers and array entries are not written out, because none of them truncates. The registers i, j, k, z, a and w and the array entries are reduced mod n <= 256 before they are stored. d is at most 16 (`SpritzContext.DigitBase`).
- The test program and its known-answer vectors (spritz.c:333 onwards) are left out. The vectors need thousands of updates per shuffle, beyond what the verifier can evaluate.
- spritz.h contributes only the record shape, the default size 256 and the `sc_alloc` alias.
- Timing, side channels and thread safety are outside a functional model.
- `size_t` is taken to be 64 bits (`Spritz.SizeModulus` is 2^64). With a 32-bit `size_t` the wrap at spritz.c:308 is mod 2^32 and gives other bytes (for n == 7, 2^32 mod 7 == 4 but 2^64 mod 7 == 2). The sizes up to 256 that decrypt correctly, the powers of two, are the same.
- In-place buffers are modelled as returned sequences, and the `int` result of `sc_hash` as an `Option`.
- There is no statement that digests of different lengths are unrelated, because the source guarantees no such relation.
- Spritz.Alloc: refuses sizes outside 2..256, where the source's construction accepts any size and returns even for n == 0 and n == 1 when the key is empty. For n == 0 the failure comes at the first absorb, stop or drip, which reduces by zero. For n == 1 it comes at the first absorb or stop: a == n/2 == 0 forces a shuffle, and its stride search never stops. Drips, encryption and decryption on an n == 1 context built with an empty key do terminate in the source, because a stays 0 and they shuffle only when a > 0; every keystream byte is then 0. Above 256 the array entries no longer fit a byte. The model refuses all these sizes, including where the source terminates.
- Spritz.AllocWithIv: refuses the same sizes as Spritz.Alloc, for the same reasons.
- Spritz.Hash: requires n <= 256 for the same reason. For n == 1 it returns an empty digest, where the source never returns, because its first absorb shuffles and the stride search loops.
- Spritz.Transform: defined as the data combined with one squeeze of as many bytes. The source squeezes one byte per data byte; Spritz.TransformStep proves the two agree.
- Mixing.SearchAsWritten: bounded by a fuel count of increments, because for n == 1 the loop does not end. Mixing.SearchStopsWithinSize shows that n increments always suffice from n == 2 up.

## Findings

| source | as written | input that shows it | evidently intended | confidence | as-written member | corrected member |
|---|---|---|---|---|---|---|
| spritz.c:308 | the keystream byte is subtracted from the data byte in `size_t`, and the wrapped difference is reduced mod n; this is right only when n divides 2^64 | n = 3, plaintext 2, keystream byte 2: the ciphertext is 1 and the source decrypts it to 0 | subtraction mod n (`Spritz.DecryptByte`), which undoes encryption for every size | not executed | Spritz.DecryptAsWrittenFails | Spritz.DecryptInvertsEncrypt |
| spritz.c:98-100 | the stride search stops only at a value v with gcd(v, n) == 1, and for n == 1 the only value, 0, has gcd 0 | n = 1: the first absorb finds a == n/2 == 0 and shuffles, and the search then loops forever | sizes below 2 refused at construction, so that the search stops within n increments (`Mixing.SearchStopsWithinSize`) | not executed | Mixing.SearchNeverEndsForSizeOne | Spritz.Alloc |
