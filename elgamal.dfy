/** ElGamal encryption of a point-embedded message prefix
    (`ElGamalEncrypt`, `ElGamalDecrypt` of util/Util.go). */
module ElGamal {
  import opened Bytes
  import opened Modular
  import opened Group

  /** What `ElGamalEncrypt` returns: the ephemeral key `K`, the blinded
      message point `C`, and the bytes that did not fit in the point. */
  datatype Ciphertext = Ciphertext(K: Point, C: Point, remainder: seq<byte>)

  /** `ElGamalEncrypt`, with its two random draws passed in: `embedRandom`
      is the stream `Embed` consumes and `k` the ephemeral private key that
      `Pick` returns. As much of the message as fits is embedded in `M`; the
      rest is returned unencrypted as the remainder; `K = k·G` and
      `C = k·pubkey + M`. Both are points of the group, and the embedded
      prefix followed by the remainder is the message. */
  function ElGamalEncrypt(g: Suite, pubkey: Point, message: seq<byte>, embedRandom: nat, k: Scalar): (ct: Ciphertext)
    requires WellFormed(g)
    ensures ct.K < g.order && ct.C < g.order
    ensures message[..Min(g.embedLen, |message|)] + ct.remainder == message
  {
    var m := g.embed(message, embedRandom);
    var max := if g.embedLen > |message| then |message| else g.embedLen;
    var remainder := message[max..];
    var K := MulBase(g, k);
    var S := Mul(g, k, pubkey);
    var C := Add(g, S, m);
    Ciphertext(K, C, remainder)
  }

  /** `ElGamalDecrypt`: the shared secret `S = prikey·K` is subtracted from
      `C` and the embedded data is extracted; a point that carries no
      embedded data gives an error, never bytes. */
  function ElGamalDecrypt(g: Suite, prikey: Scalar, K: Point, C: Point): (result: Result<seq<byte>>)
    requires WellFormed(g)
    ensures result.Err? <==> g.extract(Sub(g, C, Mul(g, prikey, K))).None?
    ensures result.Err? ==> result.error == ErrInvalidEmbedding
    ensures result.Ok? ==> g.extract(Sub(g, C, Mul(g, prikey, K))) == Some(result.value)
  {
    var S := Mul(g, prikey, K);
    var m := Sub(g, C, S);
    match g.extract(m)
    case None => Err(ErrInvalidEmbedding)
    case Some(data) => Ok(data)
  }

  /** Remainder split: the remainder is the message after its first
      `min(EmbedLen, |message|)` bytes, so the embedded prefix and the
      remainder together give the message back. */
  lemma RemainderSplit(g: Suite, pubkey: Point, message: seq<byte>, embedRandom: nat, k: Scalar)
    requires WellFormed(g)
    ensures var ct := ElGamalEncrypt(g, pubkey, message, embedRandom, k);
            var n := Min(g.embedLen, |message|);
            && ct.remainder == message[n..]
            && |ct.remainder| == |message| - n
            && message[..n] + ct.remainder == message
            && (|message| <= g.embedLen ==> ct.remainder == [])
  {
    var n := Min(g.embedLen, |message|);
    assert message[..n] + message[n..] == message;
  }

  /** The group identity behind decryption: `(k·(x·G) + M) - x·(k·G) = M`
      for every point `M`. */
  lemma {:induction false} UnblindingRecovers(g: Suite, x: Scalar, k: Scalar, m: Point)
    requires g.order > 0 && m < g.order
    ensures Sub(g, Add(g, Mul(g, k, MulBase(g, x)), m), Mul(g, x, MulBase(g, k))) == m
  {
    var q := g.order;
    ModMulRight(k, x, q);
    ModMulRight(x, k, q);
    assert k * x == x * k;
    var s := (k * x) % q;
    assert Mul(g, k, MulBase(g, x)) == s && Mul(g, x, MulBase(g, k)) == s;
    ModUnique(s, q, 0, s);
    ModSub(s + m, s, q);
    ModUnique(m, q, 0, m);
  }

  /** ElGamal round trip: decrypting with `x` what was encrypted to `x·G`
      gives back, without error, the embedded prefix of the message. */
  lemma EncryptThenDecrypt(g: Suite, x: Scalar, message: seq<byte>, embedRandom: nat, k: Scalar)
    requires WellFormed(g)
    ensures var ct := ElGamalEncrypt(g, MulBase(g, x), message, embedRandom, k);
            ElGamalDecrypt(g, x, ct.K, ct.C) == Ok(message[..Min(g.embedLen, |message|)])
  {
    UnblindingRecovers(g, x, k, g.embed(message, embedRandom));
  }

  /** With a non-zero ephemeral key, decrypting with a private key whose
      public key differs from the one encrypted to unblinds a point other
      than the embedded message point (the order is prime). */
  lemma {:induction false} OtherKeyOtherPoint(g: Suite, x: Scalar, other: Scalar, message: seq<byte>, embedRandom: nat, k: Scalar)
    requires WellFormed(g)
    requires MulBase(g, other) != MulBase(g, x) && MulBase(g, k) != 0
    ensures var ct := ElGamalEncrypt(g, MulBase(g, x), message, embedRandom, k);
            Sub(g, ct.C, Mul(g, other, ct.K)) != g.embed(message, embedRandom)
  {
    var q := g.order;
    var m := g.embed(message, embedRandom);
    var s := (k * x) % q;
    var s' := (other * k) % q;
    ModMulRight(k, x, q);
    ModMulRight(other, k, q);
    assert Mul(g, k, MulBase(g, x)) == s && Mul(g, other, MulBase(g, k)) == s';
    // C - other·K = (s + m) - s' modulo q, and s' differs from s.
    ModUnique(s, q, 0, s);
    ModAdd(s, m, q);
    ModUnique(m, q, 0, m);
    ModSubRight(s + m, s', q);
    ModUnique(s', q, 0, s');
    assert Sub(g, Add(g, s, m), s') == (s + m - s') % q by {
      ModSub(s + m, s', q);
    }
    // s - s' = k·(x - other) is not a multiple of q.
    ModEqualIffDifferenceZero(x, other, q);
    NoZeroDivisors(q, k, x - other);
    assert k * x - other * k == k * (x - other);
    ModEqualIffDifferenceZero(k * x, other * k, q);
    ModEqualIffDifferenceZero(s + m - s', m, q);
    assert (s + m - s') - m == s - s';
    ModSub(s, s', q);
    ModSub(k * x, other * k, q);
  }
}
