# NPTM `util` helpers, modelled in Dafny

The NPTM utility package (`util/Util.go`) holds the cryptographic helpers used
by the nodes of the system, together with some small encoding helpers:

- a single-key Schnorr signature in Fiat-Shamir form: `hashSchnorr`,
  `SchnorrSign` and `SchnorrVerify`;
- ElGamal encryption of a message prefix embedded in a group point:
  `ElGamalEncrypt` and `ElGamalDecrypt`. The bytes that do not fit are
  returned in the clear as the remainder;
- `SortMap`, which returns the values of a string map ordered by key;
- `ToHexInt`, the 8-byte big-endian encoding of an `int64`;
- `SerializeTwoDimensionArray`, which wraps rows of bytes in `ByteArray` records.

The Dafny project models these operations and proves their properties.
The files are:

| file | module |
|---|---|
| `modular.dfy` | `Modular`: residues modulo `q`, primality, Euclid's lemma |
| `group.dfy` | `Bytes`; `Group`: the library suite and its laws, the point and scalar operations |
| `schnorr.dfy` | `Schnorr` |
| `elgamal.dfy` | `ElGamal` |
| `strings.dfy` | `Strings`: Go's string order and `sort.Strings` |
| `sortmap.dfy` | `SortMap` |
| `encoding.dfy` | `Encoding`: `ToHexInt` and `SerializeTwoDimensionArray` |

How the group is modelled:

- A point of the prime-order group is represented by its discrete log to the
  generator `G`.
- So `G` is 1 and `s·P` is `s*P mod q`. Point addition and subtraction, and
  scalar multiplication and subtraction, are all taken modulo the order `q`.
- The library services the helpers call are fields of a `Suite` value: point
  and scalar encodings, the XOF-based `Pick`, and `Embed`/`Data`.
- The predicate `WellFormed` states the laws assumed of those services. The
  order is prime, canonical scalars decode back, every scalar the decoder
  accepts is below the order (so a decoded signature holds no non-canonical
  scalar), picks are below the order, every embedded point is below the
  order, and an embedded point yields the first `EmbedLen` bytes of its data.
- `ToySuite` is a small suite that provably satisfies these laws.

Randomness is passed in as parameters: the nonce `v` of `SchnorrSign`, and
the embedding stream and the ephemeral key `k` of `ElGamalEncrypt`.

## Model

| member | source | states |
|---|---|---|
| Schnorr.HashSchnorr | util/Util.go:171-176 | The challenge hashed from a message and a point is a scalar below the group order. |
| Schnorr.EncodeSig | util/Util.go:199-202 | Writing a signature of canonical scalars takes exactly two scalar widths; `SigRoundTrip` shows those bytes read back to the same signature. |
| Schnorr.DecodeSig | util/Util.go:208-213 | A successful read of `{C, R}` returns `C` decoded from the first `scalarLen` bytes and `R` from the next `scalarLen`, both below the order. A buffer too short for the scalar being read fails with a truncation error; a scalar the decoder refuses fails with the malformed-scalar error; and a buffer whose two scalars decode is read successfully. |
| Schnorr.SigRoundTrip | util/Util.go:199-202 | Writing a signature takes `2·scalarLen` bytes, and reading those bytes back gives the same `{c, r}`. |
| Schnorr.SchnorrSign | util/Util.go:182-203 | A signature is two scalar widths long and reads back with the challenge `hashSchnorr(message, v·G)`. `SignatureContents` adds the response, `SignThenVerify` the round trip with `SchnorrVerify`. |
| Schnorr.SignatureContents | util/Util.go:182-203 | A signature is `2·scalarLen` bytes and decodes to `c = hashSchnorr(message, v·G)` and `r = v - x·c mod q`. This is the challenge derivation. |
| Schnorr.SchnorrVerify | util/Util.go:205-231 | An undecodable signature is refused with the decoder's own error. Otherwise the result is success exactly when the hash of the message with the rebuilt commitment `r·G + c·P` equals `c`, and "invalid signature" in every other case. |
| Schnorr.Commitment | util/Util.go:217-221 | The commitment the verifier rebuilds, `r·G + c·P`, is a point of the group; `CommitmentRecovered` shows it is the signer's `v·G` for an honest signature. |
| Schnorr.CommitmentRecovered | util/Util.go:192-198 | With `r = v - x·c`, the commitment the verifier rebuilds under `x·G` is the signer's `v·G`. |
| Schnorr.SignThenVerify | util/Util.go:182-231 | A signature made with `x` verifies under `x·G`, for every message and nonce. |
| Schnorr.VerifyOtherMessage | util/Util.go:217-230 | Under the signer's key, a signature verifies for another message exactly when both messages hash to the same challenge at `v·G`. Otherwise it is refused as "invalid signature". |
| Schnorr.OtherKeyOtherCommitment | util/Util.go:217-228 | Under any other public key, with a non-zero challenge, the rebuilt commitment differs from `v·G`. Verification then passes exactly when the hash happens to give the same challenge for that other point. |
| ElGamal.ElGamalEncrypt | util/Util.go:232-248 | `K` and `C` are points of the group, and the embedded prefix followed by the remainder is the message. `RemainderSplit` pins the remainder down, `EncryptThenDecrypt` the round trip with `ElGamalDecrypt`. |
| ElGamal.ElGamalDecrypt | util/Util.go:250-258 | Decryption returns exactly the bytes `Data` extracts from the unblinded point `C - prikey·K`. It fails exactly when that point carries no embedded data, and the error is then the embedding error. |
| ElGamal.RemainderSplit | util/Util.go:235-241 | The remainder is the message after its first `min(EmbedLen, len)` bytes. The embedded prefix and the remainder give the message back, and a message that fits leaves no remainder. |
| ElGamal.UnblindingRecovers | util/Util.go:243-246 | `(k·(x·G) + M) - x·(k·G) = M` for every point `M`. |
| ElGamal.EncryptThenDecrypt | util/Util.go:232-258 | Decrypting with `x` what was encrypted to `x·G` succeeds and returns the embedded prefix `message[:min(EmbedLen, len)]`. |
| ElGamal.OtherKeyOtherPoint | util/Util.go:243-256 | With a non-zero ephemeral key, a private key with a different public key unblinds a point other than the embedded message point. |
| Strings.SortStrings | util/Util.go:34 | `sort.Strings` returns a sorted permutation of its input. |
| Strings.SortedUnique | util/Util.go:34 | Two sorted sequences with the same elements are equal, so a sort's result does not depend on the order of its input. |
| SortMap.SortedKeys | util/Util.go:27-34 | The reference order lists every key of the map exactly once, in strictly ascending order. |
| SortMap.KeysInOrder | util/Util.go:27-34 | Any sorted arrangement of exactly the map's keys is that reference order. The map's iteration order therefore does not matter. |
| SortMap.LookUpValues | util/Util.go:36-45 | For keys all present in the map, the result holds, at each position, the value of the key at that position. |
| SortMap.SortMap | util/Util.go:25-48 | The result has one entry per key, and at position `i` holds the value of the `i`-th smallest key. |
| Encoding.BigEndianRoundTrip | util/Util.go:80-86 | A number below `256^n` is recovered from its `n` big-endian bytes. |
| Encoding.FromBigEndianRoundTrip | util/Util.go:80-86 | Every byte string is the big-endian encoding, at its own length, of the number it denotes. |
| Encoding.Int64RoundTrip | util/Util.go:80-86 | Decoding the 8-byte two's-complement encoding of any `int64` gives it back. |
| Encoding.Int64Surjective | util/Util.go:80-86 | Every 8-byte string is the encoding of the `int64` it decodes to. |
| Encoding.ToHexInt | util/Util.go:80-87 | Returns 8 bytes: the two's-complement pattern of `num`, most significant byte first. They decode back to `num`. |
| Encoding.SerializeTwoDimensionArray | util/Util.go:50-57 | Returns one `ByteArray` per row, with row `i` in the `Arr` field of element `i`. |

## Left out

- Send, SendToAccessPoint: UDP I/O that panics on error. There is nothing to model beyond the call.
- Encode, ToByteRecords, ToByteRecord, ByteToRecord: gob serialization of records. The gob format is a library, not part of this model.
- The `gob.Register` call in SerializeTwoDimensionArray: a global registry side effect with no bearing on the result.
- ProtobufEncodePointList, ProtobufDecodePointList: reflection-driven protobuf codec of point lists that exits the process on error.
- FloatRound, Float64ToByte, ByteToFloat64: floating point.
- CheckErr: panics.
- The curve arithmetic, the point and scalar encodings, the XOF and `Embed`/`Data` of the kyber library are abstracted. They appear as the residue arithmetic and the `Suite` laws above. The library's code is not part of this model.
- The random streams (`random.New()` and the caller's stream) are parameters.
- Two error paths that cannot fire when writing to an in-memory buffer are not modelled: the error of `suite.Write` in SchnorrSign, which the source discards (`EncodeSig` is total), and the `log.Panic` branch of ToHexInt.
- Schnorr.DecodeSig: the library reports an empty buffer as `io.EOF` and a partly present scalar as `io.ErrUnexpectedEOF`; the model folds both into the single `ErrTruncated`.
- Schnorr.HashSchnorr: the error of `MarshalBinary`, which the source discards, is not modelled. The point encoding is total.
- Schnorr.OtherKeyOtherCommitment: this is weaker than unforgeability. Security claims (unforgeability, semantic security, tamper detection) depend on the hardness of discrete logs and on hash properties, which are outside a functional model. The lemma needs a non-zero challenge, because a zero challenge makes the public key irrelevant.
- ElGamal.OtherKeyOtherPoint: this says that a wrong key unblinds a different point, not that `Data` returns different bytes. The laws of `Suite` do not make extraction injective. The lemma needs `k·G ≠ 0`, because a zero ephemeral key blinds nothing.
- Strings.SortStrings: the library's sorting algorithm is replaced by an insertion sort with the same contract, a sorted permutation. Strings are sequences of code points, and byte strings that are not valid UTF-8 are not modelled.
- SortMap.SortMap: Go's randomized map iteration order is modelled as an arbitrary choice. The contract shows the result does not depend on it.
- The distinction between a `nil` slice and an empty one, and the sharing of backing arrays between slices (the remainder is a sub-slice of the message), are not modelled. Results are values.
