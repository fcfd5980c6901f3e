/**
 Euclidean integer arithmetic shared by every oracle: congruence, the centered
 representative and nearest-integer rounding. Every modulus below is positive,
 so `/` and `%` are the floor division and remainder the scripts use.
 */
module Arith {

  /**
   Always true. The main recursive functions of this project are defined as
   "the value v that equals the recursion once Unfold is mentioned", so a proof
   sees through them only where it calls their unfolding lemma.
   */
  predicate Unfold(t: int)
  {
    true
  }

  ghost predicate IsResidue(a: int, m: int, r: int)
    requires m > 0
  {
    forall t {:trigger Unfold(t)} :: Unfold(t) ==> r == a % m
  }

  /** a % m, unfolded by CongMod. */
  ghost function Residue(a: int, m: int): int
    requires m > 0
  {
    assert IsResidue(a, m, a % m);
    var r :| IsResidue(a, m, r);
    r
  }

  /** Congruence modulo a positive modulus. */
  ghost predicate Cong(a: int, b: int, m: int)
    requires m > 0
  {
    Residue(a, m) == Residue(b, m)
  }

  lemma CongMod(a: int, b: int, m: int)
    requires m > 0
    ensures Cong(a, b, m) <==> a % m == b % m
  {
    assert Unfold(0);
  }

  function Abs(x: int): (r: nat)
  {
    if x < 0 then -x else x
  }

  function Max(a: int, b: int): int
  {
    if a < b then b else a
  }

  function Min(a: int, b: int): int
  {
    if a < b then a else b
  }

  function Pow(x: int, e: nat): int
  {
    if e == 0 then 1 else x * Pow(x, e - 1)
  }

  lemma {:induction false} PowPositive(x: int, e: nat)
    requires x >= 1
    ensures Pow(x, e) >= 1
  {
    if e > 0 {
      PowPositive(x, e - 1);
      MulMono(1, x, Pow(x, e - 1));
    }
  }

  /** The sum of a list. */
  function Sum(terms: seq<int>): int
  {
    if |terms| == 0 then 0 else Sum(terms[..|terms| - 1]) + terms[|terms| - 1]
  }

  /** The product of a list of moduli. */
  function ListProduct(ms: seq<int>): int
  {
    if |ms| == 0 then 1 else ListProduct(ms[..|ms| - 1]) * ms[|ms| - 1]
  }

  lemma {:induction false} ListProductPositive(ms: seq<int>)
    requires forall i :: 0 <= i < |ms| ==> ms[i] > 0
    ensures ListProduct(ms) > 0
  {
    if |ms| > 0 {
      ListProductPositive(ms[..|ms| - 1]);
      MulMono(1, ms[|ms| - 1], ListProduct(ms[..|ms| - 1]));
    }
  }

  /** ceil(a / b) for a positive divisor. */
  function CeilDiv(a: int, b: int): int
    requires b > 0
  {
    (a + b - 1) / b
  }

  lemma NonzeroMultiple(m: int, d: int)
    requires m > 0 && d != 0
    ensures m * d >= m || m * d <= -m
  {
    if d > 0 {
      assert m * d >= m * 1;
    } else {
      assert m * d <= m * -1;
    }
  }

  lemma SmallMultiple(m: int, d: int)
    requires m > 0 && -m < m * d < m
    ensures d == 0
  {
    if d != 0 {
      NonzeroMultiple(m, d);
    }
  }

  /** Quotient and remainder are unique. */
  lemma DivModUnique(x: int, m: int, q: int, r: int)
    requires m > 0 && 0 <= r < m && x == m * q + r
    ensures x / m == q && x % m == r
  {
    var d := q - x / m;
    assert m * d == m * q - m * (x / m);
    assert m * d == x % m - r;
    SmallMultiple(m, d);
  }

  lemma CongFrom(a: int, b: int, m: int, k: int)
    requires m > 0 && a == b + m * k
    ensures Cong(a, b, m)
  {
    CongMod(a, b, m);
    var q, r := b / m, b % m;
    assert a == m * (q + k) + r by {
      assert m * (q + k) == m * q + m * k;
    }
    DivModUnique(a, m, q + k, r);
  }

  lemma CongWitness(a: int, b: int, m: int) returns (k: int)
    requires m > 0 && Cong(a, b, m)
    ensures a == b + m * k
  {
    CongMod(a, b, m);
    k := a / m - b / m;
    assert m * k == m * (a / m) - m * (b / m);
  }

  lemma ModMod(a: int, m: int)
    requires m > 0
    ensures a % m % m == a % m
  {
    DivModUnique(a % m, m, 0, a % m);
  }

  lemma ModCong(a: int, m: int)
    requires m > 0
    ensures Cong(a % m, a, m)
  {
    CongFrom(a % m, a, m, -(a / m));
  }

  lemma CongAdd(a: int, b: int, c: int, d: int, m: int)
    requires m > 0 && Cong(a, b, m) && Cong(c, d, m)
    ensures Cong(a + c, b + d, m)
  {
    var k := CongWitness(a, b, m);
    var l := CongWitness(c, d, m);
    assert m * (k + l) == m * k + m * l;
    CongFrom(a + c, b + d, m, k + l);
  }

  lemma CongSub(a: int, b: int, c: int, d: int, m: int)
    requires m > 0 && Cong(a, b, m) && Cong(c, d, m)
    ensures Cong(a - c, b - d, m)
  {
    var k := CongWitness(a, b, m);
    var l := CongWitness(c, d, m);
    assert m * (k - l) == m * k - m * l;
    CongFrom(a - c, b - d, m, k - l);
  }

  lemma CongScale(c: int, a: int, b: int, m: int)
    requires m > 0 && Cong(a, b, m)
    ensures Cong(c * a, c * b, m)
  {
    var k := CongWitness(a, b, m);
    Distribute(c, b, m * k);
    Exchange(c, m, k);
    CongFrom(c * a, c * b, m, c * k);
  }

  lemma CongMul(a: int, b: int, c: int, d: int, m: int)
    requires m > 0 && Cong(a, b, m) && Cong(c, d, m)
    ensures Cong(a * c, b * d, m)
  {
    CongScale(a, c, d, m);
    CongScale(d, a, b, m);
  }

  /** A congruence modulo m*k also holds modulo m. */
  lemma CongDivisor(a: int, b: int, m: int, k: int)
    requires m > 0 && k > 0 && m * k > 0 && Cong(a, b, m * k)
    ensures Cong(a, b, m)
  {
    var w := CongWitness(a, b, m * k);
    assert (m * k) * w == m * (k * w);
    CongFrom(a, b, m, k * w);
  }

  /** Multiplying both sides and the modulus. */
  lemma CongScaleModulus(c: int, a: int, b: int, m: int)
    requires m > 0 && c > 0 && c * m > 0 && Cong(a, b, m)
    ensures Cong(c * a, c * b, c * m)
  {
    var k := CongWitness(a, b, m);
    assert c * (b + m * k) == c * b + (c * m) * k;
    CongFrom(c * a, c * b, c * m, k);
  }

  /** Two congruent values closer than the modulus are equal. */
  lemma CongSmallEqual(a: int, b: int, m: int)
    requires m > 0 && Cong(a, b, m) && -m < a - b < m
    ensures a == b
  {
    var k := CongWitness(a, b, m);
    SmallMultiple(m, k);
  }

  // ------------------------------------------------- products, one law at a time

  lemma Assoc(a: int, b: int, c: int)
    ensures a * (b * c) == (a * b) * c
  {
  }

  lemma Exchange(a: int, b: int, c: int)
    ensures a * (b * c) == b * (a * c)
  {
  }

  lemma Distribute(a: int, b: int, c: int)
    ensures a * (b + c) == a * b + a * c && (b + c) * a == b * a + c * a
  {
  }

  lemma DistributeSub(a: int, b: int, c: int)
    ensures a * (b - c) == a * b - a * c && (b - c) * a == b * a - c * a
  {
  }

  // ---------------------------------------------------------------- centered

  /**
   The representative of `value` in (-m/2, m/2]. The scripts write the same
   function in three ways; see CenteredForms.
   */
  function Centered(value: int, m: int): (r: int)
    requires m > 0
  {
    var residue := value % m;
    if 2 * residue > m then residue - m else residue
  }

  lemma CenteredRange(value: int, m: int)
    requires m > 0
    ensures -m < 2 * Centered(value, m) <= m
    ensures Cong(Centered(value, m), value, m)
  {
    var residue := value % m;
    if 2 * residue > m {
      CongFrom(residue - m, value, m, -(value / m) - 1);
      assert m * (-(value / m) - 1) == -(m * (value / m)) - m;
    } else {
      CongFrom(residue, value, m, -(value / m));
    }
  }

  /** The range and the congruence class determine the centered value. */
  lemma CenteredUnique(value: int, m: int, r: int)
    requires m > 0 && -m < 2 * r <= m && Cong(r, value, m)
    ensures Centered(value, m) == r
  {
    CenteredRange(value, m);
    CongSmallEqual(Centered(value, m), r, m);
  }

  lemma CenteredCong(a: int, b: int, m: int)
    requires m > 0 && Cong(a, b, m)
    ensures Centered(a, m) == Centered(b, m)
  {
    CongMod(a, b, m);
  }

  /** Centering picks a representative of least magnitude. */
  lemma CenteredLeast(value: int, w: int, m: int)
    requires m > 0 && Cong(value, w, m)
    ensures Abs(Centered(value, m)) <= Abs(w)
  {
    CenteredRange(value, m);
    var c := Centered(value, m);
    if Abs(c) > Abs(w) {
      assert -m < c - w < m;
      CongSmallEqual(c, w, m);
    }
  }

  // ----------------------------------------------------------------- nearest

  /** floor((value + m/2) / m): nearest-integer division. */
  function Nearest(value: int, m: int): int
    requires m > 0
  {
    (value + m / 2) / m
  }

  /** For an odd modulus the rounding residual is the centered representative. */
  lemma NearestResidual(value: int, m: int)
    requires m > 0 && m % 2 == 1
    ensures value - m * Nearest(value, m) == Centered(value, m)
    ensures 2 * Abs(value - m * Nearest(value, m)) <= m - 1
  {
    var r := value - m * Nearest(value, m);
    var h := m / 2;
    assert m * Nearest(value, m) + (value + h) % m == value + h;
    assert m == 2 * h + 1;
    CongFrom(r, value, m, -Nearest(value, m));
    assert m * -Nearest(value, m) == -(m * Nearest(value, m));
    CenteredUnique(value, m, r);
  }

  /** The residual bound for a modulus of either parity. */
  lemma NearestResidualAny(value: int, m: int)
    requires m > 0
    ensures 2 * Abs(value - m * Nearest(value, m)) <= m
  {
    var h := m / 2;
    assert m * Nearest(value, m) + (value + h) % m == value + h;
  }

  /** Quotient and centered remainder determine the rounding. */
  lemma NearestUnique(value: int, m: int, k: int)
    requires m > 0 && m % 2 == 1 && 2 * Abs(value - m * k) <= m - 1
    ensures Nearest(value, m) == k
  {
    var h := m / 2;
    assert m == 2 * h + 1;
    DivModUnique(value + h, m, k, value - m * k + h);
  }

  lemma NearestShift(value: int, k: int, m: int)
    requires m > 0
    ensures Nearest(value + m * k, m) == Nearest(value, m) + k
  {
    var h := m / 2;
    var q, r := (value + h) / m, (value + h) % m;
    assert m * (q + k) == m * q + m * k;
    DivModUnique(value + m * k + h, m, q + k, r);
  }

  /** The scripts' other spellings of the two operations agree on odd moduli. */
  lemma CenteredForms(value: int, m: int)
    requires m > 0
    ensures Centered(value, m) == (if value % m > m / 2 then value % m - m else value % m)
    ensures m % 2 == 1 ==> Centered(value, m) == value - m * Nearest(value, m)
    ensures m % 2 == 1 ==> (2 * value + m) / (2 * m) == Nearest(value, m)
  {
    if m % 2 == 1 {
      NearestResidual(value, m);
      var k := Nearest(value, m);
      var r := value - m * k;
      assert 2 * value + m == (2 * m) * k + (2 * r + m) by {
        assert (2 * m) * k == 2 * (m * k);
      }
      DivModUnique(2 * value + m, 2 * m, k, 2 * r + m);
    }
  }

  // ---------------------------------------------------------- absolute values

  lemma AbsMul(a: int, b: int)
    ensures Abs(a * b) == Abs(a) * Abs(b)
  {
    if a < 0 {
      assert a * b == -((-a) * b);
      if b < 0 { assert (-a) * b == -((-a) * (-b)); assert (-a) * (-b) > 0;}
      else {assert (-a) * b >= 0;}
    } else if b < 0 {
      assert a * b == -(a * (-b));
      assert a * (-b) >= 0;
    } else { assert a * b >= 0; }
  }

  lemma MulMono(a: int, b: int, c: int)
    requires a <= b && c >= 0
    ensures a * c <= b * c && c * a <= c * b
  {
    assert (b - a) * c >= 0;
    assert (b - a) * c == b * c - a * c;
  }

  /** A bounded product of bounded factors. */
  lemma AbsMulBound(a: int, b: int, x: int, y: int)
    requires Abs(a) <= x && Abs(b) <= y
    ensures Abs(a * b) <= x * y
  {
    AbsMul(a, b);
    MulMono(Abs(a), x, Abs(b));
    MulMono(Abs(b), y, x);
  }

  /** 2|c| <= y gives 2|a*c| <= |a|*y. */
  lemma HalfMulBound(a: int, c: int, y: int)
    requires 2 * Abs(c) <= y
    ensures 2 * Abs(a * c) <= Abs(a) * y
  {
    AbsMul(a, c);
    MulMono(2 * Abs(c), y, Abs(a));
    assert Abs(a) * (2 * Abs(c)) == 2 * (Abs(a) * Abs(c));
  }

  /** Dividing an inequality between multiples of m by m. */
  lemma CancelLess(m: int, a: int, b: int)
    requires m > 0 && m * a < m * b
    ensures a < b
  {
    assert m * (b - a) == m * b - m * a;
    if b - a < 0 {
      NonzeroMultiple(m, b - a);
    }
  }

  lemma CancelEqual(m: int, a: int, b: int)
    requires m > 0 && m * a == m * b
    ensures a == b
  {
    DistributeSub(m, a, b);
    SmallMultiple(m, a - b);
  }

  lemma MulNonNegative(a: int, b: int)
    requires a >= 0 && b >= 0
    ensures a * b >= 0
  {
    MulMono(0, a, b);
  }

  lemma DivNonNegative(a: int, b: int)
    requires a >= 0 && b > 0
    ensures a / b >= 0
  {
    if a / b < 0 {
      MulMono(a / b, -1, b);
    }
  }
}
