/** The part of bls-lib that the DKG library relies on, modelled as linear
    algebra over the integers modulo a prime P.

    The secret-key type of bls-lib is a scalar of the curve's prime-order
    field; its public-key type is a point of a cyclic group of the same
    order. Any such group is isomorphic to the additive group of integers
    modulo P, so a point is represented here by its residue, the group
    operation by addition modulo P, and the public key of a scalar `x` by
    `G * x` modulo P for a fixed generator `G`. The curve itself, pairings,
    hashing, serialisation and the random generator are not part of this
    model. */
module Curve {

  /** The group order. A stand-in prime (2^61 - 1): the real order belongs to
      the curve compiled into bls-lib. The proofs use its value only through
      `GInverse * G == P + 1`. */
  const P: nat := 0x1fff_ffff_ffff_ffff

  /** A secret key of bls-lib (also used for member ids and shares). */
  type Scalar = x: int | 0 <= x < P

  /** A public key of bls-lib: a point, represented by its residue. */
  type Point = x: int | 0 <= x < P

  /** The generator that `getPublicKey` multiplies by. */
  const G: Point := 2

  /** The multiplicative inverse of `G` modulo P, which makes `PublicOf` one-to-one. */
  const GInverse: Scalar := 0x1000_0000_0000_0000

  /** The neutral element of the point group. */
  const Identity: Point := 0

  /** `secretKeyAdd`: field addition. */
  function ScalarAdd(a: Scalar, b: Scalar): Scalar {
    (a + b) % P
  }

  /** Field multiplication. */
  function ScalarMul(a: Scalar, b: Scalar): Scalar {
    (a * b) % P
  }

  /** `publicKeyAdd`: the group operation. */
  function PointAdd(p: Point, q: Point): Point {
    (p + q) % P
  }

  /** Scalar multiplication of a point. */
  function PointMul(p: Point, k: Scalar): Point {
    (p * k) % P
  }

  /** `getPublicKey`: the public key of a secret key. */
  function PublicOf(sk: Scalar): Point {
    PointMul(G, sk)
  }

  /** `secretKeyShare(sk, svec, id)`: the secret polynomial with coefficients
      `svec` (constant term first) evaluated at `id`, by Horner's rule. */
  function SecretKeyShare(svec: seq<Scalar>, id: Scalar): Scalar {
    if svec == [] then 0 else ScalarAdd(svec[0], ScalarMul(id, SecretKeyShare(svec[1..], id)))
  }

  /** `publicKeyShare(pk, vvec, id)`: the same evaluation carried out on the
      public commitments, using only group operations. */
  function PublicKeyShare(vvec: seq<Point>, id: Scalar): Point {
    if vvec == [] then Identity else PointAdd(vvec[0], PointMul(PublicKeyShare(vvec[1..], id), id))
  }

  /** The public keys of a sequence of secret keys, position by position. */
  function PublicKeys(sks: seq<Scalar>): (pks: seq<Point>)
    ensures |pks| == |sks|
    ensures forall i :: 0 <= i < |sks| ==> pks[i] == PublicOf(sks[i])
  {
    if sks == [] then [] else [PublicOf(sks[0])] + PublicKeys(sks[1..])
  }

  // ---------------------------------------------------------------------
  // Arithmetic modulo P

  lemma ModShift(x: int, k: int)
    ensures (x + k * P) % P == x % P
  {
  }

  lemma ModMulRight(a: int, b: int)
    ensures (a * (b % P)) % P == (a * b) % P
  {
    var q := b / P;
    assert b == q * P + b % P;
    assert a * b == a * (b % P) + (a * q) * P;
    ModShift(a * (b % P), a * q);
  }

  lemma ModMulLeft(a: int, b: int)
    ensures ((a % P) * b) % P == (a * b) % P
  {
    ModMulRight(b, a);
  }

  lemma ModAddLeft(a: int, b: int)
    ensures ((a % P) + b) % P == (a + b) % P
  {
    ModShift((a % P) + b, a / P);
  }

  lemma ModAddRight(a: int, b: int)
    ensures (a + (b % P)) % P == (a + b) % P
  {
    ModAddLeft(b, a);
  }

  // ---------------------------------------------------------------------
  // The algebra the DKG depends on

  /** `getPublicKey` turns field addition into the group operation. */
  lemma PublicOfAdd(a: Scalar, b: Scalar)
    ensures PublicOf(ScalarAdd(a, b)) == PointAdd(PublicOf(a), PublicOf(b))
  {
    calc {
      PublicOf(ScalarAdd(a, b));
      (G * ((a + b) % P)) % P;
      { ModMulRight(G, a + b); }
      (G * a + G * b) % P;
      { ModAddLeft(G * a, G * b); ModAddRight((G * a) % P, G * b); }
      ((G * a) % P + (G * b) % P) % P;
    }
  }

  /** `getPublicKey` commutes with multiplication by a scalar. */
  lemma PublicOfMul(k: Scalar, e: Scalar)
    ensures PublicOf(ScalarMul(k, e)) == PointMul(PublicOf(e), k)
  {
    calc {
      PublicOf(ScalarMul(k, e));
      (G * ((k * e) % P)) % P;
      { ModMulRight(G, k * e); }
      (G * (k * e)) % P;
      { assert G * (k * e) == (G * e) * k; }
      ((G * e) * k) % P;
      { ModMulLeft(G * e, k); }
      (((G * e) % P) * k) % P;
    }
  }

  /** Distinct secret keys have distinct public keys. */
  lemma PublicOfInjective(a: Scalar, b: Scalar)
    requires PublicOf(a) == PublicOf(b)
    ensures a == b
  {
    forall x: Scalar ensures (GInverse * PublicOf(x)) % P == x {
      calc {
        (GInverse * PublicOf(x)) % P;
        (GInverse * ((G * x) % P)) % P;
        { ModMulRight(GInverse, G * x); }
        (GInverse * (G * x)) % P;
        { assert GInverse * (G * x) == (GInverse * G) * x; }
        ((GInverse * G) * x) % P;
        { assert GInverse * G == P + 1; }
        ((P + 1) * x) % P;
        { assert (P + 1) * x == x + x * P; ModShift(x, x); }
        x;
      }
    }
  }

  /** The group operation is associative and commutative, in the
      rearrangement the evaluation proofs need. */
  lemma PointAddInterchange(a: Point, b: Point, c: Point, d: Point)
    ensures PointAdd(PointAdd(a, b), PointAdd(c, d)) == PointAdd(PointAdd(a, c), PointAdd(b, d))
  {
    var total := a + b + c + d;
    assert PointAdd(PointAdd(a, b), PointAdd(c, d)) == total % P by {
      SumOfResidues(a + b, c + d);
    }
    assert PointAdd(PointAdd(a, c), PointAdd(b, d)) == total % P by {
      SumOfResidues(a + c, b + d);
    }
  }

  lemma SumOfResidues(x: int, y: int)
    ensures ((x % P) + (y % P)) % P == (x + y) % P
  {
    ModAddLeft(x, y % P);
    ModAddRight(x, y);
  }

  /** Field addition is associative and commutative, in the rearrangement
      the summation proofs need. */
  lemma ScalarAddSwap(a: Scalar, b: Scalar, c: Scalar)
    ensures ScalarAdd(ScalarAdd(a, b), c) == ScalarAdd(ScalarAdd(a, c), b)
  {
    ModAddLeft(a + b, c);
    ModAddLeft(a + c, b);
  }

  /** Scalar multiplication distributes over the group operation. */
  lemma PointMulDistributes(p: Point, q: Point, k: Scalar)
    ensures PointMul(PointAdd(p, q), k) == PointAdd(PointMul(p, k), PointMul(q, k))
  {
    calc {
      PointMul(PointAdd(p, q), k);
      (((p + q) % P) * k) % P;
      { ModMulLeft(p + q, k); }
      ((p + q) * k) % P;
      { assert (p + q) * k == p * k + q * k; }
      (p * k + q * k) % P;
      { ModAddLeft(p * k, q * k); ModAddRight((p * k) % P, q * k); }
      ((p * k) % P + (q * k) % P) % P;
    }
  }

  /** Evaluating the commitments of a secret polynomial in the group gives
      the public key of the polynomial's value: the identity on which the
      Feldman check rests. */
  lemma {:induction false} PublicKeyShareOfPublicKeys(svec: seq<Scalar>, id: Scalar)
    ensures PublicKeyShare(PublicKeys(svec), id) == PublicOf(SecretKeyShare(svec, id))
  {
    if svec != [] {
      var rest := SecretKeyShare(svec[1..], id);
      assert PublicKeys(svec)[1..] == PublicKeys(svec[1..]);
      PublicKeyShareOfPublicKeys(svec[1..], id);
      PublicOfMul(id, rest);
      PublicOfAdd(svec[0], ScalarMul(id, rest));
    }
  }

  /** A polynomial evaluated at 0 yields its constant term: the secret that
      a contribution shares. */
  lemma SecretKeyShareAtZero(svec: seq<Scalar>)
    ensures SecretKeyShare(svec, 0) == if svec == [] then 0 else svec[0]
  {
  }
}
