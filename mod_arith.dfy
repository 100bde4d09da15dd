/** Facts about Euclidean division and remainders modulo a positive integer,
    leading up to cancellation of a nonzero factor modulo a prime
    (Euclid's lemma). The scalar field of the signature scheme relies on them. */
module ModArith {

  /** `p` is prime: greater than one and without divisors strictly between 1 and p. */
  predicate IsPrime(p: nat) {
    p > 1 && forall d: nat :: 1 < d < p ==> p % d != 0
  }

  /** A product of a positive multiplier with a positive modulus is at least the modulus. */
  lemma {:induction false} MulPositiveAtLeast(d: int, m: int)
    requires m > 0 && d > 0
    ensures d * m >= m
  {
    if d > 1 {
      MulPositiveAtLeast(d - 1, m);
      assert d * m == (d - 1) * m + m;
    }
  }

  /** Quotient and remainder are unique: any decomposition x == k*m + r with 0 <= r < m is the one `/` and `%` give. */
  lemma DivModUnique(x: int, m: int, k: int, r: int)
    requires m > 0 && 0 <= r < m && x == k * m + r
    ensures x % m == r && x / m == k
  {
    var k0, r0 := x / m, x % m;
    var d := k - x / m;
    assert d * m == r0 - r by {
      assert x == k0 * m + r0;
      assert (k - k0) * m == k * m - k0 * m;
    }
    if d > 0 {
      MulPositiveAtLeast(d, m);
    } else if d < 0 {
      MulPositiveAtLeast(-d, m);
    }
  }

  /** Adding a multiple of the modulus does not change the remainder. */
  lemma ModAddMultiple(x: int, k: int, m: int)
    requires m > 0
    ensures (x + k * m) % m == x % m
  {
    assert x + k * m == (x / m + k) * m + x % m by {
      assert (x / m + k) * m == (x / m) * m + k * m;
    }
    DivModUnique(x + k * m, m, x / m + k, x % m);
  }

  /** Reducing a summand first does not change the remainder of the sum. */
  lemma ModAddLeft(a: int, b: int, m: int)
    requires m > 0
    ensures (a % m + b) % m == (a + b) % m
  {
    assert a + b == (a % m + b) + (a / m) * m;
    ModAddMultiple(a % m + b, a / m, m);
  }

  /** Reducing a factor first does not change the remainder of the product. */
  lemma ModMulLeft(a: int, b: int, m: int)
    requires m > 0
    ensures ((a % m) * b) % m == (a * b) % m
  {
    assert a * b == (a % m) * b + ((a / m) * b) * m by {
      assert a == (a / m) * m + a % m;
      assert a * b == ((a / m) * m) * b + (a % m) * b;
      assert ((a / m) * m) * b == ((a / m) * b) * m;
    }
    ModAddMultiple((a % m) * b, (a / m) * b, m);
  }

  /** Reduced multiplication distributes over reduced addition. */
  lemma ModMulDistributes(l: int, a: int, b: int, m: int)
    requires m > 0
    ensures (l * ((a + b) % m)) % m == ((l * a) % m + (l * b) % m) % m
  {
    var s := (a + b) % m;
    var la, lb := l * a, l * b;
    calc {
      (l * s) % m;
      { assert l * s == s * l; }
      (s * l) % m;
      { ModMulLeft(a + b, l, m); }
      ((a + b) * l) % m;
      { assert (a + b) * l == la + lb; }
      (la + lb) % m;
      { ModAddLeft(la, lb, m); }
      (la % m + lb) % m;
      { ModAddLeft(lb, la % m, m); }
      (la % m + lb % m) % m;
    }
  }

  /** Reduced multiplication is associative. */
  lemma ModMulAssociates(l: int, a: int, b: int, m: int)
    requires m > 0
    ensures ((l * a) % m * b) % m == (l * ((a * b) % m)) % m
  {
    assert ((l * a) % m * b) % m == ((a * b) * l) % m by {
      ModMulLeft(l * a, b, m);
      assert (l * a) * b == (a * b) * l;
    }
    assert ((a * b) * l) % m == (l * ((a * b) % m)) % m by {
      ModMulLeft(a * b, l, m);
      assert ((a * b) % m) * l == l * ((a * b) % m);
    }
  }

  /** Two integers have the same remainder exactly when the modulus divides their difference. */
  lemma ModEqIffDiffZero(a: int, b: int, m: int)
    requires m > 0
    ensures a % m == b % m <==> (a - b) % m == 0
  {
    assert a - b == (a % m - b % m) + (a / m - b / m) * m by {
      assert (a / m - b / m) * m == (a / m) * m - (b / m) * m;
    }
    ModAddMultiple(a % m - b % m, a / m - b / m, m);
    var e := a % m - b % m;
    // -m < e < m, so e % m == 0 exactly when e == 0
    if e > 0 {
      DivModUnique(e, m, 0, e);
    } else if e < 0 {
      DivModUnique(e, m, -1, e + m);
    }
  }

  /** If p == k*a + r and p divides a*b, then p divides r*b, because
      r*b == b*p - k*(a*b). */
  lemma RemainderKeepsDivisibility(p: int, a: int, b: int, k: int, r: int)
    requires p > 0 && p == k * a + r && (a * b) % p == 0
    ensures (r * b) % p == 0
  {
    var j := (a * b) / p;
    assert a * b == j * p;
    assert r * b == (b - k * j) * p by {
      assert r * b == p * b - k * (a * b);
      assert k * (a * b) == (k * j) * p;
      assert (b - k * j) * p == b * p - (k * j) * p;
    }
    DivModUnique(r * b, p, b - k * j, 0);
  }

  /** Euclid's lemma, restricted form: a prime divides no product of a factor
      strictly between 0 and p with a factor it does not divide. */
  lemma {:induction false} PrimeNotDividesProduct(p: nat, a: int, b: int)
    requires IsPrime(p) && 0 < a < p && b % p != 0
    ensures (a * b) % p != 0
    decreases a
  {
    if a == 1 {
      assert a * b == b;
    } else {
      var k, r := p / a, p % a;
      assert p == k * a + r;
      assert r != 0 by {
        assert 1 < a < p;
      }
      if (a * b) % p == 0 {
        RemainderKeepsDivisibility(p, a, b, k, r);
        PrimeNotDividesProduct(p, r, b);
      }
    }
  }

  /** Cancellation modulo a prime: a factor the prime does not divide can be
      removed from both sides of a congruence. */
  lemma MulCancel(p: nat, a: int, x: int, y: int)
    requires IsPrime(p) && a % p != 0 && (a * x) % p == (a * y) % p
    ensures x % p == y % p
  {
    if x % p != y % p {
      var d := x - y;
      var e := d % p;
      ModEqIffDiffZero(x, y, p);
      assert 0 < e < p;
      ModEqIffDiffZero(a * x, a * y, p);
      assert (d * a) % p == 0 by {
        assert a * x - a * y == d * a;
      }
      ModMulLeft(d, a, p);
      assert (e * a) % p == 0;
      PrimeNotDividesProduct(p, e, a);
    }
  }
}
