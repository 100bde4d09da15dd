/** The prime-order group G1 of BLS12-381 and its scalar field Fr, in
    discrete-logarithm form. A point is represented by its exponent with
    respect to the fixed generator, so the group law is addition of
    exponents modulo the order Q and multiplication of a point by a scalar
    is multiplication of exponents. Elliptic-curve coordinates (projective
    or affine) are not represented: converting between them leaves the
    point, and hence its exponent, unchanged. */
module Group {
  import opened ModArith

  /** The order of G1 and the modulus of the scalar field Fr of BLS12-381. */
  const Q: nat := 0x73eda753299d7d483339d80809a1d80553bda402fffe5bfeffffffff00000001

  /** An element of the scalar field Fr. */
  type Scalar = s: nat | s < Q

  /** A group element, given by its discrete logarithm to the base `Generator`. */
  datatype Point = Point(log: Scalar)

  /** The agreed generator of G1 (`G1Projective::generator()`). */
  const Generator: Point := Point(1)

  /** Addition in Fr. */
  function FrAdd(a: Scalar, b: Scalar): Scalar {
    (a + b) % Q
  }

  /** Multiplication in Fr. */
  function FrMul(a: Scalar, b: Scalar): Scalar {
    (a * b) % Q
  }

  /** The group law of G1. */
  function Add(p: Point, r: Point): Point {
    Point(FrAdd(p.log, r.log))
  }

  /** Multiplication of a point by a scalar (`p * s`, `p.mul(s)`). */
  function Mul(p: Point, s: Scalar): Point {
    Point(FrMul(p.log, s))
  }

  /** A scalar is the discrete logarithm of the generator multiplied by it,
      so `s ↦ Generator·s` is a bijection between Fr and G1. */
  lemma GeneratorMul(s: Scalar, t: Scalar)
    ensures Mul(Generator, s).log == s
    ensures Mul(Generator, s) == Mul(Generator, t) <==> s == t
  {
    DivModUnique(s, Q, 0, s);
    DivModUnique(t, Q, 0, t);
  }

  /** Scalar multiplication distributes over addition in Fr:
      p·(a + b) = p·a + p·b. */
  lemma MulDistributes(p: Point, a: Scalar, b: Scalar)
    ensures Mul(p, FrAdd(a, b)) == Add(Mul(p, a), Mul(p, b))
  {
    ModMulDistributes(p.log, a, b, Q);
  }

  /** Multiplying by two scalars in turn is multiplying by their product:
      (p·a)·b = p·(a·b). */
  lemma MulCompose(p: Point, a: Scalar, b: Scalar)
    ensures Mul(Mul(p, a), b) == Mul(p, FrMul(a, b))
  {
    ModMulAssociates(p.log, a, b, Q);
  }

  /** A sum in Fr determines its second summand: Fr addition is cancellative. */
  lemma FrAddCancel(n: Scalar, x: Scalar, y: Scalar)
    ensures FrAdd(n, x) == FrAdd(n, y) <==> x == y
  {
    if FrAdd(n, x) == FrAdd(n, y) {
      ModEqIffDiffZero(n + x, n + y, Q);
      assert (n + x) - (n + y) == x - y;
      if x > y {
        DivModUnique(x - y, Q, 0, x - y);
      } else if x < y {
        DivModUnique(x - y, Q, -1, x - y + Q);
      }
    }
  }

  /** When the order is prime, a factor cancels from an Fr product unless it
      is zero: a·x = a·y exactly when a = 0 or x = y, on either side. */
  lemma FrMulCancel(a: Scalar, x: Scalar, y: Scalar)
    requires IsPrime(Q)
    ensures FrMul(a, x) == FrMul(a, y) <==> a == 0 || x == y
    ensures FrMul(x, a) == FrMul(y, a) <==> a == 0 || x == y
  {
    assert x * a == a * x && y * a == a * y;
    if a == 0 {
      DivModUnique(0, Q, 0, 0);
    } else if FrMul(a, x) == FrMul(a, y) {
      DivModUnique(a, Q, 0, a);
      MulCancel(Q, a, x, y);
      DivModUnique(x, Q, 0, x);
      DivModUnique(y, Q, 0, y);
    }
  }
}
