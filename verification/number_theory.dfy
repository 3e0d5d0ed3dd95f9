/**
 * Elementary number theory behind the address enumerator: Euclid's gcd,
 * Bezout coefficients from the extended algorithm, Euclid's lemma, and the
 * full-period property of the additive recurrence x -> (x + c) mod m when
 * gcd(m, c) == 1 (a linear congruential generator with unit multiplier).
 * Each nonlinear step is kept in a small lemma of its own.
 */
module NumberTheory {

  /** Greatest common divisor by Euclid's algorithm, with Gcd(a, 0) == a. */
  function Gcd(a: nat, b: nat): nat
    decreases b
  {
    if b == 0 then a else Gcd(b, a % b)
  }

  /** Coefficients (x, y) of the extended Euclidean algorithm. */
  function Bezout(a: nat, b: nat): (xy: (int, int))
    ensures xy.0 * a + xy.1 * b == Gcd(a, b)
    decreases b
  {
    if b == 0 then (1, 0)
    else
      var xy' := Bezout(b, a % b);
      BezoutStep(a, b, a / b, a % b, xy'.0, xy'.1);
      (xy'.1, xy'.0 - xy'.1 * (a / b))
  }

  lemma BezoutStep(a: int, b: int, q: int, r: int, x: int, y: int)
    requires a == b * q + r
    ensures x * b + y * r == y * a + (x - y * q) * b
  {
    assert y * r == y * a - (y * q) * b;
  }

  lemma MulAtLeast(m: int, d: int)
    requires m > 0 && d >= 1
    ensures m * d >= m
  {
  }

  lemma PositiveCofactor(g: int, t: int)
    requires g > 0 && g * t > 0
    ensures t >= 1
  {
  }

  lemma MulBelow(m: int, d: int, e: int)
    requires m > 0 && m * d == e && -m < e < m
    ensures d == 0
  {
    if d >= 1 {
      MulAtLeast(m, d);
    } else if d <= -1 {
      MulAtLeast(m, -d);
    }
  }

  /** The remainder is determined by any decomposition x == m * q + r with 0 <= r < m. */
  lemma ModUnique(x: int, m: int, q: int, r: int)
    requires m > 0 && 0 <= r < m && x == m * q + r
    ensures x % m == r && x / m == q
  {
    var q', r' := x / m, x % m;
    assert m * q' + r' == m * q + r;
    assert m * (q - q') == r' - r;
    MulBelow(m, q - q', r' - r);
  }

  lemma MultipleIsDivisible(m: int, q: int)
    requires m > 0
    ensures (m * q) % m == 0
  {
    ModUnique(m * q, m, q, 0);
  }

  /** Two integers have the same residue exactly when m divides their difference. */
  lemma SameResidue(x: int, y: int, m: int)
    requires m > 0
    ensures x % m == y % m <==> (x - y) % m == 0
  {
    var qx, qy := x / m, y / m;
    var rx, ry := x % m, y % m;
    assert x - y == m * (qx - qy) + (rx - ry) by {
      assert m * (qx - qy) == m * qx - m * qy;
    }
    if rx == ry {
      MultipleIsDivisible(m, qx - qy);
    } else if rx > ry {
      ModUnique(x - y, m, qx - qy, rx - ry);
    } else {
      assert x - y == m * (qx - qy - 1) + (rx - ry + m) by {
        assert m * (qx - qy - 1) == m * (qx - qy) - m;
      }
      ModUnique(x - y, m, qx - qy - 1, rx - ry + m);
    }
  }

  /** Reducing a summand first does not change the residue of the sum. */
  lemma ModAddLeft(x: int, y: int, m: int)
    requires m > 0
    ensures (x % m + y) % m == (x + y) % m
  {
    var q := x / m;
    assert (x % m + y) - (x + y) == m * -q by {
      assert x == m * q + x % m;
      assert m * -q == -(m * q);
    }
    MultipleIsDivisible(m, -q);
    SameResidue(x % m + y, x + y, m);
  }

  lemma EuclidAlgebra(a: int, c: int, m: int, x: int, y: int, t: int)
    requires x * m + y * c == 1 && a * c == m * t
    ensures a == m * (a * x + y * t)
  {
    assert a == a * (x * m + y * c);
    assert a * (x * m + y * c) == (a * x) * m + y * (a * c);
    assert y * (a * c) == y * (m * t);
    assert (a * x) * m + y * (m * t) == m * (a * x + y * t);
  }

  /** Euclid's lemma: if m divides a * c and gcd(m, c) == 1 then m divides a. */
  lemma CoprimeFactor(m: nat, c: nat, a: int)
    requires m > 0 && Gcd(m, c) == 1
    requires (a * c) % m == 0
    ensures a % m == 0
  {
    var xy := Bezout(m, c);
    var t := (a * c) / m;
    assert a * c == m * t;
    EuclidAlgebra(a, c, m, xy.0, xy.1, t);
    MultipleIsDivisible(m, a * xy.0 + xy.1 * t);
  }

  lemma CombinationAlgebra(g: int, u: int, v: int, q: int)
    ensures (g * u) * q + g * v == g * (u * q + v)
  {
  }

  /** A linear combination of multiples of g is a multiple of g. */
  lemma DivisibleCombination(g: int, x: int, y: int, q: int)
    requires g > 0 && x % g == 0 && y % g == 0
    ensures (x * q + y) % g == 0
  {
    var u, v := x / g, y / g;
    assert x == g * u && y == g * v;
    CombinationAlgebra(g, u, v, q);
    MultipleIsDivisible(g, u * q + v);
  }

  /** Gcd(a, b) is a positive common divisor of a and b. */
  lemma GcdDivides(a: nat, b: nat)
    requires a > 0 || b > 0
    ensures Gcd(a, b) > 0 && a % Gcd(a, b) == 0 && b % Gcd(a, b) == 0
    decreases b
  {
    if b == 0 {
      MultipleIsDivisible(a, 1);
    } else {
      GcdDivides(b, a % b);
      var g := Gcd(a, b);
      assert a == b * (a / b) + a % b;
      DivisibleCombination(g, b, a % b, a / b);
    }
  }

  lemma EvenAlgebra(x: int, y: int, h: int, k: int)
    ensures x * (2 * h) + y * (2 * k) == 2 * (x * h + y * k)
  {
  }

  /** Two even numbers have a common factor 2, so they are not coprime. */
  lemma EvenNotCoprime(m: nat, c: nat)
    requires m % 2 == 0 && c % 2 == 0
    ensures Gcd(m, c) != 1
  {
    var xy := Bezout(m, c);
    var h, k := m / 2, c / 2;
    assert m == 2 * h && c == 2 * k;
    EvenAlgebra(xy.0, xy.1, h, k);
    MultipleIsDivisible(2, xy.0 * h + xy.1 * k);
  }

  lemma HalfAlgebra(g: int, h: int, q: int)
    requires g == 2 * h
    ensures g * q == 2 * (h * q)
  {
  }

  /** Every divisor of an odd number is odd. */
  lemma OddDivisorIsOdd(g: nat, c: nat)
    requires g > 0 && c % g == 0 && c % 2 == 1
    ensures g % 2 == 1
  {
    if g % 2 == 0 {
      var q := c / g;
      assert c == g * q;
      HalfAlgebra(g, g / 2, q);
      MultipleIsDivisible(2, (g / 2) * q);
      assert false;
    }
  }

  lemma StepDifference(s: int, c: int, i: int, j: int)
    ensures (s + j * c) - (s + i * c) == (j - i) * c
  {
  }

  /**
   * Injectivity of the additive orbit: with gcd(m, c) == 1 the values
   * (s + i * c) mod m for 0 <= i < m are pairwise distinct.
   */
  lemma OrbitInjective(m: nat, c: nat, s: int, i: int, j: int)
    requires m > 0 && Gcd(m, c) == 1
    requires 0 <= i < j < m
    ensures (s + i * c) % m != (s + j * c) % m
  {
    if (s + i * c) % m == (s + j * c) % m {
      SameResidue(s + j * c, s + i * c, m);
      StepDifference(s, c, i, j);
      CoprimeFactor(m, c, j - i);
      ModUnique(j - i, m, 0, j - i);
      assert false;
    }
  }

  /** The algebra behind OrbitSurjective: stepping (a - s) * c^-1 times from s lands on a, modulo m. */
  lemma InverseStep(m: int, c: int, s: int, a: int, x: int, y: int, q: int, k: int) returns (w: int)
    requires x * m + y * c == 1
    requires k == (a - s) * y - m * q
    ensures s + k * c == m * w + a
  {
    var d := a - s;
    assert k * c == (d * y) * c - (m * q) * c;
    assert (m * q) * c == m * (q * c);
    assert (d * y) * c == d * (y * c);
    assert d * (1 - x * m) == d - m * (d * x);
    w := -(d * x) - q * c;
  }

  /**
   * Surjectivity of the additive orbit: with gcd(m, c) == 1 every residue
   * a in [0, m) is (s + k * c) mod m for some k in [0, m).
   */
  lemma OrbitSurjective(m: nat, c: nat, s: int, a: int) returns (k: int)
    requires m > 0 && Gcd(m, c) == 1
    requires 0 <= a < m
    ensures 0 <= k < m && (s + k * c) % m == a
  {
    var xy := Bezout(m, c);
    var w;
    k, w := InverseWitness(m, c, s, a, xy.0, xy.1);
    ModUnique(s + k * c, m, w, a);
  }

  /** The step count (a - s) * y reduced modulo m, where y is an inverse of c modulo m. */
  lemma InverseWitness(m: int, c: int, s: int, a: int, x: int, y: int) returns (k: int, w: int)
    requires m > 0 && x * m + y * c == 1
    ensures 0 <= k < m && s + k * c == m * w + a
  {
    var e := (a - s) * y;
    k := e % m;
    var q := e / m;
    assert k == e - m * q;
    w := InverseStep(m, c, s, a, x, y, q, k);
  }

  /** After m steps the orbit is back where it started. */
  lemma OrbitCloses(m: nat, c: nat, s: int)
    requires m > 0
    ensures (s + m * c) % m == s % m
  {
    assert (s + m * c) - s == m * c;
    MultipleIsDivisible(m, c);
    SameResidue(s + m * c, s, m);
  }

  /** A proper divisor g >= 2 of m leaves a cofactor strictly between 0 and m. */
  lemma ProperCofactor(m: int, g: int, t: int)
    requires m > 0 && g >= 2 && m == g * t
    ensures 1 <= t < m
  {
    PositiveCofactor(g, t);
    MulAtLeast(t, g - 1);
    assert t * (g - 1) == g * t - t;
  }

  lemma CofactorAlgebra(s: int, c: int, m: int, g: int, t: int, u: int)
    requires m == g * t && c == g * u
    ensures (s + t * c) - s == m * u
  {
    assert t * (g * u) == (g * t) * u;
  }

  /** Without coprimality the orbit closes early, after some t < m steps. */
  lemma OrbitClosesEarly(m: nat, c: nat, s: int) returns (t: int)
    requires m > 0 && Gcd(m, c) != 1
    ensures 1 <= t < m && (s + t * c) % m == s % m
  {
    GcdDivides(m, c);
    var g := Gcd(m, c);
    t := m / g;
    var u := c / g;
    assert m == g * t && c == g * u;
    ProperCofactor(m, g, t);
    CofactorAlgebra(s, c, m, g, t, u);
    MultipleIsDivisible(m, u);
    SameResidue(s + t * c, s, m);
  }
}
