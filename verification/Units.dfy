/**
 Units modulo m: the extended Euclidean algorithm, modular inverses, coprimality
 as a Bezout relation, and the primality test used before inverting.
 */
module Units {
  import opened Arith
  import opened Wrappers

  /** (g, x, y) with a*x + b*y = g, by the recursion on (b mod a, a). */
  function ExtendedGcd(a: int, b: int): (r: (int, int, int))
    requires a >= 0 && b >= 0
    decreases a
  {
    if a == 0 then (b, 0, 1)
    else
      var (g, x, y) := ExtendedGcd(b % a, a);
      (g, y - b / a * x, x)
  }

  ghost predicate Divides(d: int, a: int)
  {
    exists k :: a == d * k
  }

  lemma DividesFrom(d: int, a: int, k: int)
    requires a == d * k
    ensures Divides(d, a)
  {
  }

  lemma {:induction false} ExtendedGcdBezout(a: int, b: int)
    requires a >= 0 && b >= 0
    ensures var (g, x, y) := ExtendedGcd(a, b); a * x + b * y == g
    ensures a + b > 0 ==> ExtendedGcd(a, b).0 > 0
    ensures Divides(ExtendedGcd(a, b).0, a) && Divides(ExtendedGcd(a, b).0, b)
    decreases a
  {
    if a == 0 {
      DividesFrom(b, 0, 0);
      DividesFrom(b, b, 1);
    } else {
      var r, k := b % a, b / a;
      ExtendedGcdBezout(r, a);
      var (g, x, y) := ExtendedGcd(r, a);
      BezoutStep(a, b, k, r, x, y);
      DividesSum(g, a, b, r, k);
    }
  }

  lemma DividesSum(g: int, a: int, b: int, r: int, k: int)
    requires Divides(g, a) && Divides(g, r) && b == a * k + r
    ensures Divides(g, b)
  {
    var u :| r == g * u;
    var v :| a == g * v;
    Assoc(g, v, k);
    Distribute(g, v * k, u);
    DividesFrom(g, b, v * k + u);
  }

  lemma BezoutStep(a: int, b: int, k: int, r: int, x: int, y: int)
    requires b == a * k + r
    ensures a * (y - k * x) + b * x == r * x + a * y
  {
    DistributeSub(a, y, k * x);
    Distribute(x, a * k, r);
    Assoc(a, k, x);
  }

  // ------------------------------------------------------------------ coprime

  predicate Bezout(a: int, m: int, x: int, y: int)
  {
    a * x + m * y == 1
  }

  ghost predicate Coprime(a: int, m: int)
  {
    exists x, y :: Bezout(a, m, x, y)
  }

  lemma CoprimeComm(a: int, m: int)
    requires Coprime(a, m)
    ensures Coprime(m, a)
  {
    var x, y :| Bezout(a, m, x, y);
    assert Bezout(m, a, y, x);
  }

  lemma CoprimeMod(a: int, b: int, m: int)
    requires m > 0 && Cong(a, b, m) && Coprime(a, m)
    ensures Coprime(b, m)
  {
    var x, y :| Bezout(a, m, x, y);
    var k := CongWitness(a, b, m);
    Distribute(x, b, m * k);
    Assoc(m, k, x);
    Distribute(m, k * x, y);
    assert Bezout(b, m, x, k * x + y);
  }

  lemma CoprimeMul(a: int, b: int, m: int)
    requires Coprime(a, m) && Coprime(b, m)
    ensures Coprime(a * b, m)
  {
    var x, y :| Bezout(a, m, x, y);
    var u, v :| Bezout(b, m, u, v);
    // 1 = (a*x + m*y)*(b*u + m*v)
    var z := y * (b * u) + a * x * v + m * y * v;
    ProductBezout(a * x, m * y, b * u, m * v);
    assert (a * b) * (x * u) == (a * x) * (b * u);
    assert m * z == (m * y) * (b * u) + (a * x) * (m * v) + (m * y) * (m * v) by {
      Distribute(m, y * (b * u) + a * x * v, m * y * v);
      Distribute(m, y * (b * u), a * x * v);
      Assoc(m, y, b * u);
      Exchange(m, a * x, v);
      Exchange(m, m * y, v);
    }
    assert Bezout(a * b, m, x * u, z);
  }

  lemma ProductBezout(p: int, q: int, r: int, s: int)
    requires p + q == 1 && r + s == 1
    ensures p * r + (q * r + p * s + q * s) == 1
  {
    Distribute(r, p, q);
    Distribute(s, p, q);
  }

  /** A unit factor cancels from a congruence to zero. */
  lemma CoprimeCancel(a: int, x: int, m: int)
    requires m > 0 && Coprime(a, m) && Cong(a * x, 0, m)
    ensures Cong(x, 0, m)
  {
    var u, v :| Bezout(a, m, u, v);
    var k := CongWitness(a * x, 0, m);
    Distribute(x, a * u, m * v);
    assert x == (a * u) * x + (m * v) * x;
    assert (a * u) * x == u * (a * x);
    Exchange(u, m, k);
    Assoc(m, v, x);
    Distribute(m, u * k, v * x);
    CongFrom(x, 0, m, u * k + v * x);
  }

  lemma CoprimeCancelEqual(a: int, x: int, y: int, m: int)
    requires m > 0 && Coprime(a, m) && Cong(a * x, a * y, m)
    ensures Cong(x, y, m)
  {
    DistributeSub(a, x, y);
    CongSub(a * x, a * y, a * y, a * y, m);
    CoprimeCancel(a, x - y, m);
    CongAdd(x - y, 0, y, y, m);
  }

  /** Congruence modulo coprime factors lifts to the product. */
  lemma CoprimeLift(x: int, y: int, m: int, k: int)
    requires m > 0 && k > 0 && m * k > 0 && Coprime(m, k) && Cong(x, y, m) && Cong(x, y, k)
    ensures Cong(x, y, m * k)
  {
    var c := CongWitness(x, y, m);
    CongSub(x, y, y, y, k);
    CoprimeCancel(m, c, k);
    var d := CongWitness(c, 0, k);
    Assoc(m, k, d);
    CongFrom(x, y, m * k, d);
  }

  // ----------------------------------------------------------------- inverses

  /** The remainder that keeps the sign of the dividend. */
  function SignedRem(x: int, m: int): int
    requires m > 0
  {
    if x >= 0 then x % m else -((-x) % m)
  }

  /** The inverse from the Bezout coefficient, or None when the gcd is not one. */
  function ModInverse(a: int, m: int): Option<int>
    requires a >= 0 && m > 0
  {
    var (g, x, y) := ExtendedGcd(a, m);
    if g != 1 then None else Some((SignedRem(x, m) + m) % m)
  }

  lemma SignedRemMod(x: int, m: int)
    requires m > 0
    ensures (SignedRem(x, m) + m) % m == x % m
  {
    CongMod((SignedRem(x, m) + m) % m, x, m);
    ModCong(SignedRem(x, m) + m, m);
    if x >= 0 {
      CongFrom(x % m + m, x, m, 1 - x / m);
      DistributeSub(m, 1, x / m);
    } else {
      CongFrom(-((-x) % m) + m, x, m, 1 + (-x) / m);
      Distribute(m, 1, (-x) / m);
    }
    CongMod(SignedRem(x, m) + m, x, m);
  }

  /** An inverse is returned exactly for the units, and it is the inverse. */
  lemma ModInverseCorrect(a: int, m: int)
    requires a >= 0 && m > 0
    ensures ModInverse(a, m).Some? <==> Coprime(a, m)
    ensures ModInverse(a, m).Some? ==> 0 <= ModInverse(a, m).value < m && Cong(a * ModInverse(a, m).value, 1, m)
  {
    var (g, x, y) := ExtendedGcd(a, m);
    ExtendedGcdBezout(a, m);
    if g == 1 {
      assert Bezout(a, m, x, y);
      InverseOf(a, m, x, y);
    } else if Coprime(a, m) {
      CoprimeGcd(a, m, g);
    }
  }

  lemma InverseOf(a: int, m: int, x: int, y: int)
    requires m > 0 && Bezout(a, m, x, y)
    ensures var v := (SignedRem(x, m) + m) % m; 0 <= v < m && Cong(a * v, 1, m)
  {
    SignedRemMod(x, m);
    ModCong(x, m);
    CongScale(a, x % m, x, m);
    CongFrom(a * x, 1, m, -y);
  }

  lemma CoprimeGcd(a: int, m: int, g: int)
    requires g > 0 && Coprime(a, m) && Divides(g, a) && Divides(g, m)
    ensures g == 1
  {
    var u, v :| Bezout(a, m, u, v);
    var p :| a == g * p;
    var q :| m == g * q;
    Assoc(g, p, u);
    Assoc(g, q, v);
    Distribute(g, p * u, q * v);
    UnitFactor(g, p * u + q * v);
  }

  lemma UnitFactor(g: int, k: int)
    requires g > 0 && g * k == 1
    ensures g == 1
  {
    if k <= 0 {
      MulMono(k, 0, g);
    } else {
      MulMono(1, k, g);
    }
  }

  /** Python's pow(a, -1, m): the argument is reduced first. */
  function Inverse(a: int, m: int): Option<int>
    requires m > 0
  {
    ModInverse(a % m, m)
  }

  lemma InverseCorrect(a: int, m: int)
    requires m > 0
    ensures Inverse(a, m).Some? <==> Coprime(a, m)
    ensures Inverse(a, m).Some? ==> 0 <= Inverse(a, m).value < m && Cong(a * Inverse(a, m).value, 1, m)
  {
    ModCong(a, m);
    ModInverseCorrect(a % m, m);
    if Coprime(a, m) {
      CoprimeMod(a, a % m, m);
    }
    if Inverse(a, m).Some? {
      CoprimeMod(a % m, a, m);
      var v := Inverse(a, m).value;
      CongMul(a % m, a, v, v, m);
    }
  }

  // ------------------------------------------------------------------- primes

  predicate Prime(p: int)
  {
    p >= 2 && forall d :: 2 <= d < p ==> p % d != 0
  }

  /** A common divisor of a prime and a smaller nonzero number is 1. */
  lemma GcdOfPrime(r: int, p: int, g: int)
    requires Prime(p) && 0 < r < p && g > 0 && Divides(g, p) && Divides(g, r)
    ensures g == 1
  {
    var u :| p == g * u;
    var k :| r == g * k;
    if k <= 0 {
      MulMono(k, 0, g);
    }
    MulMono(1, k, g);
    DivModUnique(p, g, u, 0);
  }

  /** Every nonmultiple of a prime is a unit. */
  lemma PrimeUnit(a: int, p: int)
    requires Prime(p) && !Cong(a, 0, p)
    ensures Coprime(a, p)
  {
    var r := a % p;
    CongMod(a, 0, p);
    DivModUnique(0, p, 0, 0);
    ExtendedGcdBezout(r, p);
    var (g, x, y) := ExtendedGcd(r, p);
    if g != 1 {
      GcdOfPrime(r, p, g);
    }
    assert Bezout(r, p, x, y);
    ModCong(a, p);
    CoprimeMod(r, a, p);
  }

  /** Trial division by the odd numbers from 3 up to the integer square root. */
  predicate PassesTrialDivision(p: int)
  {
    p >= 3 && p % 2 == 1 && forall d :: 3 <= d < p && d % 2 == 1 && d * d <= p ==> p % d != 0
  }

  /** The test accepts exactly the odd primes. */
  lemma TrialDivision(p: int)
    ensures PassesTrialDivision(p) <==> Prime(p) && p != 2
  {
    if Prime(p) && p != 2 {
      assert p % 2 != 0;
    }
    if PassesTrialDivision(p) {
      forall d | 2 <= d < p
        ensures p % d != 0
      {
        if p % d == 0 {
          var e := SmallFactor(p, d);
        }
      }
    }
  }

  /** A proper divisor of an odd number, or its cofactor, is an odd divisor up to the root. */
  lemma SmallFactor(p: int, d: int) returns (e: int)
    requires p >= 3 && p % 2 == 1 && 2 <= d < p && p % d == 0
    ensures 3 <= e < p && e % 2 == 1 && e * e <= p && p % e == 0
  {
    var c := p / d;
    assert p == d * c;
    if c <= 1 {
      MulMono(c, 1, d);
    }
    OddFactor(d, c);
    MulMono(2, d, c);
    if d <= c {
      e := d;
      MulMono(d, c, d);
    } else {
      e := c;
      DivModUnique(p, c, d, 0);
      MulMono(c, d, c);
    }
  }

  lemma OddFactor(d: int, e: int)
    requires d > 0 && e > 0 && (d * e) % 2 == 1
    ensures d % 2 == 1 && e % 2 == 1
  {
    if d % 2 == 0 {
      Assoc(2, d / 2, e);
    }
    if e % 2 == 0 {
      Exchange(2, d, e / 2);
    }
  }
}
