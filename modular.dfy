/** Arithmetic modulo a group order: the facts about Euclidean `%` that the
    group laws of the discrete-log model rest on, and the absence of zero
    divisors modulo a prime. */
module Modular {

  /** `d` divides `n`. */
  predicate Divides(d: nat, n: nat)
    requires d > 0
  {
    n % d == 0
  }

  /** `p` is prime: at least 2 and without a divisor strictly between 1 and `p`. */
  predicate IsPrime(p: nat)
  {
    p >= 2 && forall d :: 2 <= d < p ==> !Divides(d, p)
  }

  /** A positive multiple of `q` is at least `q`. */
  lemma MulAtLeast(q: int, k: int)
    requires q > 0 && k >= 1
    ensures q * k >= q
  {
  }

  /** A multiple of `q` strictly between `-q` and `q` is zero. */
  lemma SmallMultipleIsZero(q: int, k: int)
    requires q > 0 && -q < q * k < q
    ensures k == 0
  {
    if k >= 1 {
      MulAtLeast(q, k);
    } else if k <= -1 {
      MulAtLeast(q, -k);
    }
  }

  /** Euclidean division has exactly one remainder in [0, q). */
  lemma ModUnique(x: int, q: int, k: int, r: int)
    requires q > 0 && 0 <= r < q && x == q * k + r
    ensures x % q == r
  {
    var k', r' := x / q, x % q;
    assert x == q * k' + r';
    assert q * (k - k') == r' - r;
    SmallMultipleIsZero(q, k - k');
  }

  /** Adding a multiple of `q` does not change the residue. */
  lemma ModShift(x: int, k: int, q: int)
    requires q > 0
    ensures (q * k + x) % q == x % q
  {
    var t := x / q;
    assert x == q * t + x % q;
    assert q * k + x == q * (k + t) + x % q;
    ModUnique(q * k + x, q, k + t, x % q);
  }

  /** Reducing the left summand first does not change the residue of a sum. */
  lemma ModAddLeft(a: int, b: int, q: int)
    requires q > 0
    ensures (a % q + b) % q == (a + b) % q
  {
    var t := a / q;
    assert a == q * t + a % q;
    ModShift(a % q + b, t, q);
  }

  /** Reducing either summand first does not change the residue of a sum. */
  lemma ModAdd(a: int, b: int, q: int)
    requires q > 0
    ensures (a % q + b % q) % q == (a + b) % q
  {
    ModAddLeft(a, b % q, q);
    ModAddLeft(b, a, q);
  }

  /** Reducing the subtrahend first does not change the residue of a difference. */
  lemma ModSubRight(a: int, b: int, q: int)
    requires q > 0
    ensures (a - b % q) % q == (a - b) % q
  {
    var t := b / q;
    assert b == q * t + b % q;
    assert a - b % q == q * t + (a - b);
    ModShift(a - b, t, q);
  }

  /** Reducing either operand first does not change the residue of a difference. */
  lemma ModSub(a: int, b: int, q: int)
    requires q > 0
    ensures (a % q - b % q) % q == (a - b) % q
  {
    var t := b / q;
    assert b == q * t + b % q;
    ModAddLeft(a, -(b % q), q);
    ModShift(a - b, t, q);
    assert a - b % q == q * t + (a - b);
  }

  /** Reducing the right factor first does not change the residue of a product. */
  lemma ModMulRight(a: int, b: int, q: int)
    requires q > 0
    ensures (a * (b % q)) % q == (a * b) % q
  {
    var t := b / q;
    assert b == q * t + b % q;
    assert a * b == q * (a * t) + a * (b % q);
    ModShift(a * (b % q), a * t, q);
  }

  /** Reducing either factor first does not change the residue of a product. */
  lemma ModMul(a: int, b: int, q: int)
    requires q > 0
    ensures ((a % q) * (b % q)) % q == (a * b) % q
  {
    ModMulRight(a % q, b, q);
    ModMulRight(b, a, q);
    assert (a % q) * b == b * (a % q);
  }

  /** Two integers have the same residue exactly when their difference is a multiple of `q`. */
  lemma ModEqualIffDifferenceZero(a: int, b: int, q: int)
    requires q > 0
    ensures a % q == b % q <==> (a - b) % q == 0
  {
    ModSub(a, b, q);
    var d := a % q - b % q;
    assert -q < d < q;
    if d < 0 {
      ModUnique(d, q, -1, d + q);
    } else {
      ModUnique(d, q, 0, d);
    }
  }

  /** Modulo a prime, two factors in (0, p) have a non-zero product; the proof
      descends from `c` to `p % c`, which is again a zero divisor if `c` is. */
  lemma {:induction false} NoZeroDivisorsBelow(p: nat, c: nat, d: nat)
    requires IsPrime(p) && 0 < c < p && 0 < d < p
    ensures (c * d) % p != 0
    decreases c
  {
    if c == 1 {
      ModUnique(d, p, 0, d);
    } else if (c * d) % p == 0 {
      assert !Divides(c, p);
      var t, u := p / c, p % c;
      assert p == c * t + u && 0 < u < c;
      var m := (c * d) / p;
      assert c * d == p * m;
      assert u * d == p * d - t * (c * d) by {
        assert u * d == (p - c * t) * d;
      }
      assert u * d == p * (d - t * m);
      ModShift(0, d - t * m, p);
      NoZeroDivisorsBelow(p, u, d);
    }
  }

  /** Modulo a prime, a product is zero only if one of its factors is. */
  lemma NoZeroDivisors(p: nat, a: int, b: int)
    requires IsPrime(p) && a % p != 0 && b % p != 0
    ensures (a * b) % p != 0
  {
    NoZeroDivisorsBelow(p, a % p, b % p);
    ModMul(a, b, p);
  }
}
