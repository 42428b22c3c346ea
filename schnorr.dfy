/** Schnorr signatures in Fiat-Shamir form with a single signer key
    (`hashSchnorr`, `SchnorrSign`, `SchnorrVerify` of util/Util.go). */
module Schnorr {
  import opened Bytes
  import opened Modular
  import opened Group

  /** `basicSig`: the challenge `c` and the response `r`. */
  datatype BasicSig = BasicSig(c: Scalar, r: Scalar)

  /** `hashSchnorr`: an XOF seeded with the encoding of `p` absorbs the
      message, and a scalar is picked from its output stream. */
  function HashSchnorr(g: Suite, message: seq<byte>, p: Point): (c: Scalar)
    requires WellFormed(g)
    ensures c < g.order
  {
    g.pick(g.marshalPoint(p), message)
  }

  /** The wire form of a signature: the canonical encoding of `c`, then that
      of `r`. A signature of canonical scalars takes two scalar widths. */
  function EncodeSig(g: Suite, sig: BasicSig): (bytes: seq<byte>)
    requires WellFormed(g)
    ensures sig.c < g.order && sig.r < g.order ==> |bytes| == 2 * g.scalarLen
  {
    g.encodeScalar(sig.c) + g.encodeScalar(sig.r)
  }

  /** `suite.Read(buf, &sig)`: reads `C`, then `R`, each from the next
      `scalarLen` bytes; bytes after the second scalar are not read. */
  function DecodeSig(g: Suite, buf: seq<byte>): (result: Result<BasicSig>)
    requires WellFormed(g)
    ensures result.Ok? ==> 2 * g.scalarLen <= |buf|
    ensures result.Ok? ==> result.value.c < g.order && result.value.r < g.order
    ensures result.Ok? ==> g.decodeScalar(buf[..g.scalarLen]) == Some(result.value.c)
    ensures result.Ok? ==> g.decodeScalar(buf[g.scalarLen..2 * g.scalarLen]) == Some(result.value.r)
    ensures |buf| < g.scalarLen ==> result == Err(ErrTruncated)
    ensures g.scalarLen <= |buf| && g.decodeScalar(buf[..g.scalarLen]).None? ==> result == Err(ErrMalformedScalar)
    ensures g.scalarLen <= |buf| < 2 * g.scalarLen && g.decodeScalar(buf[..g.scalarLen]).Some? ==>
              result == Err(ErrTruncated)
    ensures (&& 2 * g.scalarLen <= |buf|
             && g.decodeScalar(buf[..g.scalarLen]).Some?
             && g.decodeScalar(buf[g.scalarLen..2 * g.scalarLen]).None?) ==>
              result == Err(ErrMalformedScalar)
    ensures (&& 2 * g.scalarLen <= |buf|
             && g.decodeScalar(buf[..g.scalarLen]).Some?
             && g.decodeScalar(buf[g.scalarLen..2 * g.scalarLen]).Some?) ==>
              result.Ok?
  {
    var n := g.scalarLen;
    if |buf| < n then Err(ErrTruncated)
    else match g.decodeScalar(buf[..n])
      case None => Err(ErrMalformedScalar)
      case Some(c) =>
        if |buf| < 2 * n then Err(ErrTruncated)
        else match g.decodeScalar(buf[n..2 * n])
          case None => Err(ErrMalformedScalar)
          case Some(r) => Ok(BasicSig(c, r))
  }

  /** Every signature of canonical scalars decodes to itself from its wire form. */
  lemma SigRoundTrip(g: Suite, sig: BasicSig)
    requires WellFormed(g) && sig.c < g.order && sig.r < g.order
    ensures |EncodeSig(g, sig)| == 2 * g.scalarLen
    ensures DecodeSig(g, EncodeSig(g, sig)) == Ok(sig)
  {
    var ec, er := g.encodeScalar(sig.c), g.encodeScalar(sig.r);
    var buf := EncodeSig(g, sig);
    assert buf[..g.scalarLen] == ec;
    assert buf[g.scalarLen..2 * g.scalarLen] == er;
  }

  /** `SchnorrSign`, with the scalar `v` that `Pick` draws from the caller's
      random stream passed in: commitment `T = v·G`, challenge
      `c = hashSchnorr(message, T)`, response `r = v - x·c`, and the
      encoding of `{c, r}`. The signature is two scalar widths long and
      reads back with the challenge of `message` at `v·G`. */
  function SchnorrSign(g: Suite, v: Scalar, message: seq<byte>, privateKey: Scalar): (sig: seq<byte>)
    requires WellFormed(g)
    ensures |sig| == 2 * g.scalarLen
    ensures DecodeSig(g, sig).Ok? && DecodeSig(g, sig).value.c == HashSchnorr(g, message, MulBase(g, v))
  {
    var t := MulBase(g, v);
    var c := HashSchnorr(g, message, t);
    var r := ScalarSub(g, v, ScalarMul(g, privateKey, c));
    SigRoundTrip(g, BasicSig(c, r));
    EncodeSig(g, BasicSig(c, r))
  }

  /** Challenge derivation: a signature is `2·scalarLen` bytes and decodes
      to the challenge `hashSchnorr(message, v·G)` and the response
      `v - x·c` reduced modulo the group order. */
  lemma SignatureContents(g: Suite, v: Scalar, message: seq<byte>, x: Scalar)
    requires WellFormed(g)
    ensures var sig := SchnorrSign(g, v, message, x);
            var c := HashSchnorr(g, message, MulBase(g, v));
            && |sig| == 2 * g.scalarLen
            && DecodeSig(g, sig) == Ok(BasicSig(c, (v - x * c) % g.order))
  {
    var c := HashSchnorr(g, message, MulBase(g, v));
    ModSubRight(v, x * c, g.order);
    SigRoundTrip(g, BasicSig(c, ScalarSub(g, v, ScalarMul(g, x, c))));
  }

  /** The commitment the verifier rebuilds from a signature: `r·G + c·P`,
      a point of the group. */
  function Commitment(g: Suite, sig: BasicSig, publicKey: Point): (t: Point)
    requires g.order > 0
    ensures t < g.order
  {
    Add(g, MulBase(g, sig.r), Mul(g, sig.c, publicKey))
  }

  /** `SchnorrVerify`: a signature that does not decode is refused with the
      decoder's error before any group operation; otherwise it is accepted
      exactly when the challenge recomputed from the rebuilt commitment is
      the signature's own challenge. */
  function SchnorrVerify(g: Suite, message: seq<byte>, publicKey: Point, signature: seq<byte>): (result: Outcome)
    requires WellFormed(g)
    ensures DecodeSig(g, signature).Err? ==> result == Fail(DecodeSig(g, signature).error)
    ensures result == Pass <==>
              && DecodeSig(g, signature).Ok?
              && var sig := DecodeSig(g, signature).value;
                 HashSchnorr(g, message, Commitment(g, sig, publicKey)) == sig.c
    ensures DecodeSig(g, signature).Ok? && result != Pass ==> result == Fail(ErrInvalidSignature)
  {
    match DecodeSig(g, signature)
    case Err(e) => Fail(e)
    case Ok(sig) =>
      var t := Commitment(g, sig, publicKey);
      if HashSchnorr(g, message, t) != sig.c then Fail(ErrInvalidSignature) else Pass
  }

  /** The group identity behind verification: with `r = v - x·c`,
      `r·G + c·(x·G) = v·G`. */
  lemma {:induction false} CommitmentRecovered(g: Suite, v: Scalar, x: Scalar, c: Scalar)
    requires g.order > 0
    ensures Commitment(g, BasicSig(c, (v - x * c) % g.order), MulBase(g, x)) == MulBase(g, v)
  {
    var q := g.order;
    var r := (v - x * c) % q;
    ModUnique(r, q, 0, r);
    assert MulBase(g, r) == r;
    ModMulRight(c, x, q);
    assert Mul(g, c, MulBase(g, x)) == (c * x) % q;
    ModAdd(v - x * c, c * x, q);
    assert v - x * c + c * x == v;
  }

  /** Sign/verify round trip: a signature made with private key `x` verifies
      under the public key `x·G`, whatever the message and the nonce. */
  lemma SignThenVerify(g: Suite, v: Scalar, message: seq<byte>, x: Scalar)
    requires WellFormed(g)
    ensures SchnorrVerify(g, message, MulBase(g, x), SchnorrSign(g, v, message, x)) == Pass
  {
    var c := HashSchnorr(g, message, MulBase(g, v));
    SignatureContents(g, v, message, x);
    CommitmentRecovered(g, v, x, c);
  }

  /** Under the signer's key, a signature made for `message` verifies for
      `other` exactly when both messages hash to the same challenge with the
      signer's commitment `v·G`; otherwise it is refused as invalid. */
  lemma VerifyOtherMessage(g: Suite, v: Scalar, message: seq<byte>, other: seq<byte>, x: Scalar)
    requires WellFormed(g)
    ensures var result := SchnorrVerify(g, other, MulBase(g, x), SchnorrSign(g, v, message, x));
            && (result == Pass <==>
                  HashSchnorr(g, other, MulBase(g, v)) == HashSchnorr(g, message, MulBase(g, v)))
            && (result == Pass || result == Fail(ErrInvalidSignature))
  {
    var c := HashSchnorr(g, message, MulBase(g, v));
    SignatureContents(g, v, message, x);
    CommitmentRecovered(g, v, x, c);
  }

  /** Under any other public key, a signature with a non-zero challenge
      makes the verifier rebuild a commitment different from the signer's
      `v·G` (the order is prime), so it verifies only if the hash gives the
      same challenge for two different commitments. */
  lemma {:induction false} OtherKeyOtherCommitment(g: Suite, v: Scalar, message: seq<byte>, x: Scalar, publicKey: Point)
    requires WellFormed(g)
    requires publicKey < g.order && publicKey != MulBase(g, x)
    requires HashSchnorr(g, message, MulBase(g, v)) != 0
    ensures var c := HashSchnorr(g, message, MulBase(g, v));
            var t := Commitment(g, BasicSig(c, (v - x * c) % g.order), publicKey);
            && t != MulBase(g, v)
            && (SchnorrVerify(g, message, publicKey, SchnorrSign(g, v, message, x)) == Pass <==>
                  HashSchnorr(g, message, t) == c)
  {
    var q := g.order;
    var c := HashSchnorr(g, message, MulBase(g, v));
    var r := (v - x * c) % q;
    var p := MulBase(g, x);
    SignatureContents(g, v, message, x);
    CommitmentRecovered(g, v, x, c);
    // Both commitments are residues of r + c·key.
    ModUnique(r, q, 0, r);
    ModAdd(r, c * publicKey, q);
    ModAdd(r, c * p, q);
    assert Commitment(g, BasicSig(c, r), publicKey) == (r + c * publicKey) % q;
    assert Commitment(g, BasicSig(c, r), p) == (r + c * p) % q;
    // Their difference c·(publicKey - p) is not a multiple of the prime q.
    ModUnique(publicKey, q, 0, publicKey);
    ModUnique(p, q, 0, p);
    ModEqualIffDifferenceZero(publicKey, p, q);
    ModUnique(c, q, 0, c);
    NoZeroDivisors(q, c, publicKey - p);
    assert (r + c * publicKey) - (r + c * p) == c * (publicKey - p);
    ModEqualIffDifferenceZero(r + c * publicKey, r + c * p, q);
  }
}
