/** The arithmetic RSA rests on: divisibility, Euclid's lemma, the binomial theorem and
    Fermat's little theorem, up to the inversion of modular exponentiation. */
module NumberTheory {

  function Pow(b: int, e: nat): (r: int)
    ensures b > 0 ==> r > 0
  {
    if e == 0 then 1 else b * Pow(b, e - 1)
  }

  predicate Divides(d: nat, x: int)
    requires d > 0
  {
    x % d == 0
  }

  predicate Congruent(x: int, y: int, m: nat)
    requires m > 0
  {
    Divides(m, x - y)
  }

  ghost predicate Prime(p: nat) {
    p > 1 && forall d: nat :: 1 < d < p ==> !Divides(d, p)
  }

  // ---- Divisibility ----

  lemma MultipleIsDivisible(d: nat, x: int, q: int)
    requires d > 0 && x == d * q
    ensures Divides(d, x)
  {
    var k := q - x / d;
    assert x % d == d * k;
    assert k >= 1 ==> d * k >= d;
    assert k <= -1 ==> d * k + d <= 0;
  }

  lemma Quotient(d: nat, x: int) returns (q: int)
    requires d > 0 && Divides(d, x)
    ensures x == d * q
  {
    q := x / d;
  }

  lemma DividesSum(d: nat, x: int, y: int)
    requires d > 0 && Divides(d, x) && Divides(d, y)
    ensures Divides(d, x + y) && Divides(d, x - y)
  {
    var q := Quotient(d, x);
    var r := Quotient(d, y);
    assert d * q + d * r == d * (q + r) && d * q - d * r == d * (q - r);
    MultipleIsDivisible(d, x + y, q + r);
    MultipleIsDivisible(d, x - y, q - r);
  }

  lemma DividesProduct(d: nat, x: int, y: int)
    requires d > 0 && Divides(d, x)
    ensures Divides(d, x * y) && Divides(d, y * x)
  {
    var q := Quotient(d, x);
    assert x * y == d * (q * y) by {
      assert d * q * y == d * (q * y);
    }
    MultipleIsDivisible(d, x * y, q * y);
  }

  /** Euclid's lemma for a factor already reduced below the prime. */
  lemma {:induction false} EuclidReduced(p: nat, a: nat, b: int)
    requires Prime(p) && 0 < a < p && Divides(p, a * b)
    ensures Divides(p, b)
    decreases a
  {
    if a > 1 {
      var s, r := p / a, p % a;
      assert !Divides(a, p);
      assert r * b == p * b - s * (a * b) by {
        assert p == a * s + r;
        assert (a * s + r) * b == a * s * b + r * b;
        assert a * s * b == s * (a * b);
      }
      MultipleIsDivisible(p, p * b, b);
      DividesProduct(p, a * b, s);
      DividesSum(p, p * b, s * (a * b));
      EuclidReduced(p, r, b);
    }
  }

  lemma Euclid(p: nat, a: int, b: int)
    requires Prime(p) && Divides(p, a * b) && !Divides(p, a)
    ensures Divides(p, b)
  {
    var r, s := a % p, a / p;
    assert r * b == a * b - p * (s * b) by {
      assert (p * s + r) * b == p * s * b + r * b;
      assert p * s * b == p * (s * b);
    }
    MultipleIsDivisible(p, p * (s * b), s * b);
    DividesSum(p, a * b, p * (s * b));
    EuclidReduced(p, r, b);
  }

  lemma PrimesDoNotDivideEachOther(p: nat, q: nat)
    requires Prime(p) && Prime(q) && p != q
    ensures !Divides(q, p)
  {
    // q is either below p, and then no divisor of it, or above p, and then p is its own residue
    assert q > p ==> p % q == p;
  }

  /** A number divisible by two different primes is divisible by their product. */
  lemma DistinctPrimesDivideTogether(p: nat, q: nat, x: int)
    requires Prime(p) && Prime(q) && p != q && Divides(p, x) && Divides(q, x)
    ensures p * q > 0 && Divides(p * q, x)
  {
    var y := Quotient(p, x);
    PrimesDoNotDivideEachOther(p, q);
    Euclid(q, p, y);
    var z := Quotient(q, y);
    MultipleOfBoth(p, q, x, y, z);
  }

  lemma MultipleOfBoth(p: nat, q: nat, x: int, y: int, z: int)
    requires p > 0 && q > 0 && x == p * y && y == q * z
    ensures p * q > 0 && Divides(p * q, x)
  {
    assert p * (q * z) == (p * q) * z;
    MultipleIsDivisible(p * q, x, z);
  }

  // ---- Congruences ----

  lemma CongruentTransitive(x: int, y: int, z: int, m: nat)
    requires m > 0 && Congruent(x, y, m) && Congruent(y, z, m)
    ensures Congruent(x, z, m)
  {
    DividesSum(m, x - y, y - z);
  }

  lemma CongruentSum(x: int, y: int, u: int, v: int, m: nat)
    requires m > 0 && Congruent(x, y, m) && Congruent(u, v, m)
    ensures Congruent(x + u, y + v, m)
  {
    DividesSum(m, x - y, u - v);
    assert (x - y) + (u - v) == (x + u) - (y + v);
  }

  lemma CongruentProduct(x: int, y: int, u: int, v: int, m: nat)
    requires m > 0 && Congruent(x, y, m) && Congruent(u, v, m)
    ensures Congruent(x * u, y * v, m)
  {
    DividesProduct(m, x - y, u);
    DividesProduct(m, u - v, y);
    DividesSum(m, (x - y) * u, (u - v) * y);
    assert (x - y) * u + (u - v) * y == x * u - y * v;
  }

  lemma {:induction false} CongruentPow(x: int, y: int, e: nat, m: nat)
    requires m > 0 && Congruent(x, y, m)
    ensures Congruent(Pow(x, e), Pow(y, e), m)
  {
    if e > 0 {
      CongruentPow(x, y, e - 1, m);
      CongruentProduct(x, y, Pow(x, e - 1), Pow(y, e - 1), m);
    }
  }

  lemma ResidueIsCongruent(x: int, m: nat)
    requires m > 0
    ensures Congruent(x, x % m, m) && Congruent(x % m, x, m)
  {
    var q := x / m;
    MultipleIsDivisible(m, x - x % m, q);
    assert x % m - x == m * (-q);
    MultipleIsDivisible(m, x % m - x, -q);
  }

  lemma CongruentResiduesAreEqual(x: int, y: int, m: nat)
    requires m > 0 && Congruent(x, y, m) && 0 <= x < m && 0 <= y < m
    ensures x == y
  {
    var q := Quotient(m, x - y);
    assert q >= 1 ==> m * q >= m;
    assert q <= -1 ==> m * q + m <= 0;
  }

  // ---- Powers ----

  lemma {:induction false} PowSum(b: int, e: nat, f: nat)
    ensures Pow(b, e + f) == Pow(b, e) * Pow(b, f)
  {
    if e > 0 {
      PowSum(b, e - 1, f);
      assert Pow(b, e + f) == b * Pow(b, e - 1 + f);
      Associative(b, Pow(b, e - 1), Pow(b, f));
    }
  }

  lemma Associative(x: int, y: int, z: int)
    ensures x * (y * z) == (x * y) * z
  {
  }

  lemma {:induction false} PowPow(b: int, e: nat, f: nat)
    ensures e * f >= 0 && Pow(Pow(b, e), f) == Pow(b, e * f)
  {
    if f > 0 {
      PowPow(b, e, f - 1);
      assert e * f == e + e * (f - 1);
      PowSum(b, e, e * (f - 1));
    }
  }

  lemma {:induction false} PowMonotone(b: int, e: nat, f: nat)
    requires b > 0 && e <= f
    ensures 0 < Pow(b, e) <= Pow(b, f)
  {
    if e < f {
      PowMonotone(b, e, f - 1);
      assert b * Pow(b, f - 1) >= Pow(b, f - 1);
    }
  }

  // ---- Binomial coefficients and Fermat's little theorem ----

  function Binomial(n: nat, k: nat): nat {
    if k == 0 then 1
    else if n == 0 then 0
    else Binomial(n - 1, k - 1) + Binomial(n - 1, k)
  }

  lemma {:induction false} BinomialVanishes(n: nat, k: nat)
    requires n < k
    ensures Binomial(n, k) == 0
  {
    if n > 0 {
      BinomialVanishes(n - 1, k - 1);
      BinomialVanishes(n - 1, k);
    }
  }

  lemma {:induction false} BinomialDiagonal(n: nat)
    ensures Binomial(n, n) == 1
  {
    if n > 0 {
      BinomialDiagonal(n - 1);
      BinomialVanishes(n - 1, n);
    }
  }

  lemma {:induction false} Absorption(n: nat, k: nat)
    requires n > 0 && k > 0
    ensures k * Binomial(n, k) == n * Binomial(n - 1, k - 1)
    decreases n
  {
    var c, x := Binomial(n - 1, k - 1), Binomial(n - 1, k);
    assert Binomial(n, k) == c + x;
    if n == 1 {
      if k > 1 {
        BinomialVanishes(0, k);
        BinomialVanishes(0, k - 1);
      }
    } else {
      Absorption(n - 1, k);
      if k > 1 {
        Absorption(n - 1, k - 1);
      }
      var u, v := if k > 1 then Binomial(n - 2, k - 2) else 0, Binomial(n - 2, k - 1);
      AbsorptionStep(n, k, c, x, u, v);
    }
  }

  lemma AbsorptionStep(n: nat, k: nat, c: nat, x: nat, u: nat, v: nat)
    requires n > 0 && k > 0 && c == u + v
    requires k * x == (n - 1) * v && (k - 1) * c == (n - 1) * u
    ensures k * (c + x) == n * c
  {
    assert (n - 1) * c == (n - 1) * u + (n - 1) * v;
    assert k * (c + x) == (k - 1) * c + c + k * x;
  }

  /** The first k + 1 terms of the expansion of (a + 1)^n. */
  function Expansion(n: nat, a: int, k: nat): int {
    Binomial(n, k) * Pow(a, k) + if k == 0 then 0 else Expansion(n, a, k - 1)
  }

  lemma {:induction false} ExpansionStep(n: nat, a: int, k: nat)
    requires k > 0
    ensures Expansion(n + 1, a, k) == Expansion(n, a, k) + a * Expansion(n, a, k - 1)
  {
    var t, u, v := Pow(a, k - 1), Binomial(n, k - 1), Binomial(n, k);
    var below, further := Expansion(n, a, k - 1), if k == 1 then 0 else Expansion(n, a, k - 2);
    if k > 1 {
      ExpansionStep(n, a, k - 1);
    }
    assert Expansion(n + 1, a, k - 1) == below + a * further;
    RegroupTerms(a, t, u, v, below, further);
  }

  lemma RegroupTerms(a: int, t: int, u: int, v: int, x: int, y: int)
    ensures (u + v) * (a * t) + (x + a * y) == (v * (a * t) + x) + a * (u * t + y)
  {
    assert (u + v) * (a * t) == v * (a * t) + a * (u * t);
    assert a * (u * t + y) == a * (u * t) + a * y;
  }

  lemma TopTermVanishes(n: nat, a: int)
    ensures Expansion(n, a, n + 1) == Expansion(n, a, n)
  {
    BinomialVanishes(n, n + 1);
  }

  lemma {:induction false} BinomialTheorem(n: nat, a: int)
    ensures Expansion(n, a, n) == Pow(a + 1, n)
  {
    if n > 0 {
      BinomialTheorem(n - 1, a);
      TopTermVanishes(n - 1, a);
      ExpansionStep(n - 1, a, n);
      AddMultiple(a, Expansion(n - 1, a, n - 1));
    }
  }

  lemma AddMultiple(a: int, w: int)
    ensures w + a * w == (a + 1) * w
  {
  }

  /** All inner terms of the expansion of (a + 1)^p vanish modulo a prime p. */
  lemma {:induction false} InnerTermsVanish(p: nat, a: int, k: nat)
    requires Prime(p) && k < p
    ensures Congruent(Expansion(p, a, k), 1, p)
  {
    if k == 0 {
      MultipleIsDivisible(p, 0, 0);
    } else {
      InnerTermsVanish(p, a, k - 1);
      Absorption(p, k);
      MultipleIsDivisible(p, k * Binomial(p, k), Binomial(p - 1, k - 1));
      EuclidReduced(p, k, Binomial(p, k));
      DividesProduct(p, Binomial(p, k), Pow(a, k));
      DividesSum(p, Binomial(p, k) * Pow(a, k), Expansion(p, a, k - 1) - 1);
    }
  }

  /** Fermat's little theorem: a^p is a modulo a prime p. */
  lemma {:induction false} Fermat(p: nat, a: nat)
    requires Prime(p)
    ensures Congruent(Pow(a, p), a, p)
  {
    if a == 0 {
      assert Pow(0, p) == 0;
      MultipleIsDivisible(p, 0, 0);
    } else {
      Fermat(p, a - 1);
      BinomialTheorem(p, a - 1);
      InnerTermsVanish(p, a - 1, p - 1);
      BinomialDiagonal(p);
      CongruentSum(Pow(a - 1, p), a - 1, Expansion(p, a - 1, p - 1), 1, p);
    }
  }

  lemma {:induction false} FermatPower(p: nat, a: nat, t: nat)
    requires Prime(p)
    ensures t * (p - 1) >= 0 && Congruent(Pow(a, 1 + t * (p - 1)), a, p)
  {
    if t == 0 {
      assert Pow(a, 1) == a * Pow(a, 0);
      MultipleIsDivisible(p, 0, 0);
    } else {
      FermatPower(p, a, t - 1);
      var e := 1 + (t - 1) * (p - 1);
      assert 1 + t * (p - 1) == e + (p - 1) by {
        assert t * (p - 1) == (t - 1) * (p - 1) + (p - 1);
      }
      PowSum(a, e, p - 1);
      MultipleIsDivisible(p, 0, 0);
      CongruentProduct(Pow(a, e), a, Pow(a, p - 1), Pow(a, p - 1), p);
      assert a * Pow(a, p - 1) == Pow(a, p);
      Fermat(p, a);
      CongruentTransitive(Pow(a, e) * Pow(a, p - 1), Pow(a, p), a, p);
    }
  }

  /** Raising to a power that is 1 modulo p - 1 and q - 1 changes nothing modulo p * q. */
  lemma PowerFixesResidues(p: nat, q: nat, x: nat, a: nat)
    requires Prime(p) && Prime(q) && p != q
    requires x > 0 && Divides(p - 1, x - 1) && Divides(q - 1, x - 1)
    ensures p * q > 0 && Congruent(Pow(a, x), a, p * q)
  {
    var s := Quotient(p - 1, x - 1);
    var t := Quotient(q - 1, x - 1);
    assert s >= 0 && t >= 0 by {
      assert s < 0 ==> (p - 1) * s < 0;
      assert t < 0 ==> (q - 1) * t < 0;
    }
    FermatPower(p, a, s);
    FermatPower(q, a, t);
    assert x == 1 + s * (p - 1) == 1 + t * (q - 1);
    DistinctPrimesDivideTogether(p, q, Pow(a, x) - a);
  }

  /** RSA inversion: exponentiation by e and then by d, each reduced modulo p * q, gives
      every residue back. */
  lemma ExponentsInvert(p: nat, q: nat, e: nat, d: nat, m: nat)
    requires Prime(p) && Prime(q) && p != q && m < p * q
    requires e * d > 0 && Divides(p - 1, e * d - 1) && Divides(q - 1, e * d - 1)
    ensures Pow(Pow(m, e) % (p * q), d) % (p * q) == m
  {
    var n := p * q;
    var c := Pow(m, e) % n;
    ResidueIsCongruent(Pow(m, e), n);
    CongruentPow(c, Pow(m, e), d, n);
    PowPow(m, e, d);
    PowerFixesResidues(p, q, e * d, m);
    CongruentTransitive(Pow(c, d), Pow(m, e * d), m, n);
    ResidueIsCongruent(Pow(c, d), n);
    CongruentTransitive(Pow(c, d) % n, Pow(c, d), m, n);
    CongruentResiduesAreEqual(Pow(c, d) % n, m, n);
  }
}
