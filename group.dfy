/** A byte as Go's `byte`. */
module Bytes {
  type byte = b: int | 0 <= b < 256

  function Min(a: nat, b: nat): nat
  {
    if a <= b then a else b
  }
}

/** The algebra library the crypto helpers consume (a kyber `Suite`: a
    prime-order group, its scalar field, an extendable-output hash and the
    canonical encodings), modelled by discrete logarithms: a point is
    represented by its discrete log to the generator G, so G is 1 and every
    point and every scalar is a residue modulo the group order. */
module Group {
  import opened Bytes
  import opened Modular

  datatype Option<T> = None | Some(value: T)

  /** A point, by its discrete log to the generator. Points and scalars are
      deliberately the same type: a point is its discrete log, itself a
      residue modulo the order, so `s·P` is a product of two residues. */
  type Point = nat

  /** A scalar, an element of the field of residues modulo the group order. */
  type Scalar = nat

  /** The errors the core returns instead of panicking. */
  datatype Error =
    | ErrTruncated          // a fixed-size scalar encoding ran past the end of the buffer
    | ErrMalformedScalar    // the scalar decoder refused the bytes
    | ErrInvalidSignature   // "invalid signature"
    | ErrInvalidEmbedding   // the point carries no embedded data

  datatype Result<T> = Ok(value: T) | Err(error: Error)

  datatype Outcome = Pass | Fail(error: Error)

  /** The capabilities of a kyber suite that the core uses; the curve
      arithmetic itself is the residue arithmetic below. */
  datatype Suite = Suite(
    order: nat,                                  // the prime group order q
    scalarLen: nat,                              // bytes of a canonical scalar encoding
    encodeScalar: Scalar -> seq<byte>,           // Scalar.MarshalBinary
    decodeScalar: seq<byte> -> Option<Scalar>,   // Scalar.UnmarshalBinary on scalarLen bytes
    marshalPoint: Point -> seq<byte>,            // Point.MarshalBinary
    pick: (seq<byte>, seq<byte>) -> Scalar,      // Scalar().Pick of XOF(seed) after Write(message)
    embedLen: nat,                               // Point.EmbedLen
    embed: (seq<byte>, nat) -> Point,            // Point.Embed(data, random stream)
    extract: Point -> Option<seq<byte>>          // Point.Data
  )

  /** The laws assumed of the library: prime order, canonical scalar
      encodings that decode back, hash output in the scalar field, and an
      embedding that carries the first `embedLen` bytes of its data. */
  ghost predicate WellFormed(g: Suite)
  {
    && IsPrime(g.order)
    && (forall x: Scalar :: x < g.order ==>
          |g.encodeScalar(x)| == g.scalarLen && g.decodeScalar(g.encodeScalar(x)) == Some(x))
    && (forall b: seq<byte> :: g.decodeScalar(b).Some? ==> g.decodeScalar(b).value < g.order)
    && (forall seed: seq<byte>, msg: seq<byte> :: g.pick(seed, msg) < g.order)
    && (forall data: seq<byte>, rnd: nat :: g.embed(data, rnd) < g.order)
    && (forall data: seq<byte>, rnd: nat ::
          g.extract(g.embed(data, rnd)) == Some(data[..Min(g.embedLen, |data|)]))
  }

  /** A two-element group that satisfies every law of `WellFormed`, so the
      laws are consistent and the contracts that assume them can be met. */
  function ToySuite(): Suite
  {
    Suite(
      2, 1,
      (x: Scalar) => [x % 256],
      (b: seq<byte>) => if |b| == 1 && b[0] < 2 then Some(b[0]) else None,
      (p: Point) => [p % 256],
      (seed: seq<byte>, msg: seq<byte>) => |msg| % 2,
      0,
      (data: seq<byte>, rnd: nat) => 0,
      (p: Point) => Some([]))
  }

  lemma ToySuiteWellFormed()
    ensures WellFormed(ToySuite())
  {
    var g := ToySuite();
    assert IsPrime(g.order);
    forall x: Scalar | x < g.order
      ensures |g.encodeScalar(x)| == g.scalarLen && g.decodeScalar(g.encodeScalar(x)) == Some(x)
    {
      assert g.encodeScalar(x) == [x];
    }
    forall data: seq<byte>, rnd: nat
      ensures g.extract(g.embed(data, rnd)) == Some(data[..Min(g.embedLen, |data|)])
    {
      assert data[..0] == [];
    }
  }

  /** `Point().Mul(s, nil)`: the multiple `s·G` of the generator. */
  function MulBase(g: Suite, s: Scalar): Point
    requires g.order > 0
  {
    s % g.order
  }

  /** `Point().Mul(s, P)`: the multiple `s·P`. */
  function Mul(g: Suite, s: Scalar, p: Point): Point
    requires g.order > 0
  {
    (s * p) % g.order
  }

  /** `Point().Add(P, Q)`. */
  function Add(g: Suite, p: Point, p': Point): Point
    requires g.order > 0
  {
    (p + p') % g.order
  }

  /** `Point().Sub(P, Q)`. */
  function Sub(g: Suite, p: Point, p': Point): Point
    requires g.order > 0
  {
    (p - p') % g.order
  }

  /** `Scalar().Mul(a, b)`. */
  function ScalarMul(g: Suite, a: Scalar, b: Scalar): Scalar
    requires g.order > 0
  {
    (a * b) % g.order
  }

  /** `Scalar().Sub(a, b)`. */
  function ScalarSub(g: Suite, a: Scalar, b: Scalar): Scalar
    requires g.order > 0
  {
    (a - b) % g.order
  }
}
