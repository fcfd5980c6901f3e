/**
 The bounded digit polynomial: a public polynomial F with F(r + p*m) = r modulo
 p*p for every |r| <= B and every m. `Certify` is the exact finite certificate
 and `Construct` the construction, which always meets it.
 */
module DigitPolynomial {
  import opened Arith
  import opened Units
  import opened Vectors
  import opened Polynomials
  import opened Wrappers

  // --------------------------------------------------------------- certificate

  /** Value identities modulo p*p and derivative identities modulo p on the support. */
  ghost predicate Certify(f: Poly, p: int, bound: int)
    requires p > 0 && p * p > 0
  {
    && (forall r :: -bound <= r <= bound ==> Evaluate(f, r, p * p) == r % (p * p))
    && (forall r :: -bound <= r <= bound ==> Evaluate(Derivative(f), r, p) == 0)
  }

  /** F(r + p*m) = F(r) + p*m*F'(r) modulo p*p. */
  lemma TaylorModSquare(f: Poly, r: int, p: int, m: int)
    requires p > 0 && p * p > 0
    ensures Cong(Eval(f, r + p * m), Eval(f, r) + p * (m * Slope(f, r)), p * p)
  {
    var q := Taylor(f, r, p * m);
    Assoc(p, m, Slope(f, r));
    SquareShift(p, m, q);
    CongFrom(Eval(f, r + p * m), Eval(f, r) + p * (m * Slope(f, r)), p * p, m * m * q);
  }

  lemma SquareShift(p: int, m: int, q: int)
    ensures ((p * m) * (p * m)) * q == (p * p) * (m * m * q)
  {
    Assoc(p, m, p * m);
    Exchange(m, p, m);
    Assoc(p, p, m * m);
    Assoc(p * p, m * m, q);
  }

  /** f sends r + p*m to r modulo p*p. */
  ghost predicate Fixes(f: Poly, p: int, r: int, m: int)
    requires p > 0 && p * p > 0
  {
    Cong(Eval(f, r + p * m), r, p * p)
  }

  /**
   The certificate is exact for arbitrary coefficients and any p: it accepts f
   if and only if f sends r + p*m to r modulo p*p for every |r| <= bound and
   every integer m.
   */
  lemma CertifyExact(f: Poly, p: int, bound: int)
    requires p > 0 && p * p > 0
    ensures Certify(f, p, bound) <==> forall r, m :: -bound <= r <= bound ==> Fixes(f, p, r, m)
  {
    if Certify(f, p, bound) {
      forall r, m | -bound <= r <= bound
        ensures Fixes(f, p, r, m)
      {
        CertifiedPoint(f, p, bound, r, m);
      }
    }
    if forall r, m :: -bound <= r <= bound ==> Fixes(f, p, r, m) {
      forall r | -bound <= r <= bound
        ensures Evaluate(f, r, p * p) == r % (p * p) && Evaluate(Derivative(f), r, p) == 0
      {
        assert Fixes(f, p, r, 0) && Fixes(f, p, r, 1);
        DerivativeVanishes(f, p, r, r + p * 0, r + p * 1);
      }
    }
  }

  /** The two identities of the certificate at one point, as congruences. */
  lemma PointCertified(f: Poly, p: int, r: int)
    requires p > 0 && p * p > 0
    ensures Evaluate(f, r, p * p) == r % (p * p) <==> Cong(Eval(f, r), r, p * p)
    ensures Evaluate(Derivative(f), r, p) == 0 <==> Cong(Slope(f, r), 0, p)
  {
    EvaluateIsEval(f, r, p * p);
    EvaluateIsEval(Derivative(f), r, p);
    DerivativeIsSlope(f, r);
    CongMod(Eval(f, r), r, p * p);
    CongMod(Slope(f, r), 0, p);
    DivModUnique(0, p, 0, 0);
  }

  lemma CertifiedPoint(f: Poly, p: int, bound: int, r: int, m: int)
    requires p > 0 && p * p > 0 && Certify(f, p, bound) && -bound <= r <= bound
    ensures Fixes(f, p, r, m)
  {
    TaylorModSquare(f, r, p, m);
    PointCertified(f, p, r);
    assert Evaluate(f, r, p * p) == r % (p * p);
    assert Evaluate(Derivative(f), r, p) == 0;
    SlopeTerm(p, m, Slope(f, r));
    CongAdd(Eval(f, r), r, p * (m * Slope(f, r)), 0, p * p);
  }

  lemma SlopeTerm(p: int, m: int, s: int)
    requires p > 0 && p * p > 0 && Cong(s, 0, p)
    ensures Cong(p * (m * s), 0, p * p)
  {
    CongScale(m, s, 0, p);
    CongScaleModulus(p, m * s, 0, p);
  }

  lemma DerivativeVanishes(f: Poly, p: int, r: int, x: int, y: int)
    requires p > 0 && p * p > 0 && x == r && y == r + p * 1
    requires Cong(Eval(f, x), r, p * p) && Cong(Eval(f, y), r, p * p)
    ensures Evaluate(f, r, p * p) == r % (p * p) && Evaluate(Derivative(f), r, p) == 0
  {
    PointCertified(f, p, r);
    TaylorModSquare(f, r, p, 1);
    SlopeVanishes(Eval(f, r), Eval(f, y), Slope(f, r), r, p);
  }

  lemma SlopeVanishes(e: int, shifted: int, s: int, r: int, p: int)
    requires p > 0 && p * p > 0 && Cong(e, r, p * p) && Cong(shifted, r, p * p)
    requires Cong(shifted, e + p * (1 * s), p * p)
    ensures Cong(s, 0, p)
  {
    CongSub(e + p * s, r, e, r, p * p);
    var k := CongWitness(p * s, 0, p * p);
    Assoc(p, p, k);
    CancelEqual(p, s, p * k);
    CongFrom(s, 0, p, k);
  }

  // ----------------------------------------------------------- the root product

  /** G = (X - lo)*(X - (lo + 1))*...*(X - (lo + k - 1)). */
  function RootProduct(lo: int, k: nat): (g: Poly)
    ensures |g| == k + 1
  {
    if k == 0 then [1] else Product(RootProduct(lo, k - 1), [-(lo + (k - 1)), 1])
  }

  lemma RootStep(lo: int, k: nat, x: int)
    ensures Eval(RootProduct(lo, k + 1), x) == Eval(RootProduct(lo, k), x) * (x - (lo + k))
    ensures Slope(RootProduct(lo, k + 1), x) == Slope(RootProduct(lo, k), x) * (x - (lo + k)) + Eval(RootProduct(lo, k), x)
  {
    var g, l := RootProduct(lo, k), [-(lo + k), 1];
    EvalProduct(g, l, x);
    SlopeProduct(g, l, x);
    EvalLinear(lo + k, x);
  }

  /** G vanishes at its roots. */
  lemma {:induction false} RootVanishes(lo: int, k: nat, j: nat)
    requires j < k
    ensures Eval(RootProduct(lo, k), lo + j) == 0
  {
    var x := lo + j;
    RootStep(lo, k - 1, x);
    if j < k - 1 {
      RootVanishes(lo, k - 1, j);
    }
    ZeroFactor(Eval(RootProduct(lo, k), x), Eval(RootProduct(lo, k - 1), x), x - (lo + (k - 1)));
  }

  lemma ZeroFactor(e: int, a: int, b: int)
    requires e == a * b && (a == 0 || b == 0)
    ensures e == 0
  {
  }

  /** Distinct points closer than a prime differ by a unit. */
  lemma DifferenceUnit(a: int, b: int, p: int)
    requires Prime(p) && a != b && -p < a - b < p
    ensures Coprime(a - b, p)
  {
    if Cong(a - b, 0, p) {
      CongSmallEqual(a - b, 0, p);
    }
    PrimeUnit(a - b, p);
  }

  /** The value of G away from its roots is a unit. */
  lemma {:induction false} RootProductUnit(lo: int, k: nat, x: int, p: int)
    requires Prime(p) && lo + k <= x < lo + p
    ensures Coprime(Eval(RootProduct(lo, k), x), p)
  {
    if k == 0 {
      EvalSingle(1, x);
      assert Bezout(1, p, 1, 0);
    } else {
      RootStep(lo, k - 1, x);
      RootProductUnit(lo, k - 1, x, p);
      DifferenceUnit(x, lo + (k - 1), p);
      CoprimeMul(Eval(RootProduct(lo, k - 1), x), x - (lo + (k - 1)), p);
    }
  }

  /** G' is a unit at every root when there are fewer than p consecutive roots. */
  lemma {:induction false} SlopeUnit(lo: int, k: nat, j: nat, p: int)
    requires Prime(p) && j < k <= p
    ensures Coprime(Slope(RootProduct(lo, k), lo + j), p)
  {
    var x := lo + j;
    RootStep(lo, k - 1, x);
    if j == k - 1 {
      RootProductUnit(lo, k - 1, x, p);
    } else {
      RootVanishes(lo, k - 1, j);
      SlopeUnit(lo, k - 1, j, p);
      DifferenceUnit(x, lo + (k - 1), p);
    }
    UnitSlope(Slope(RootProduct(lo, k), x), Slope(RootProduct(lo, k - 1), x), x - (lo + (k - 1)),
      Eval(RootProduct(lo, k - 1), x), p);
  }

  lemma UnitSlope(d: int, s: int, c: int, e: int, p: int)
    requires d == s * c + e
    requires (c == 0 && Coprime(e, p)) || (e == 0 && Coprime(s, p) && Coprime(c, p))
    ensures Coprime(d, p)
  {
    if e == 0 && c != 0 {
      CoprimeMul(s, c, p);
    }
  }

  // --------------------------------------------------------------- construction

  /** H(r)*G'(r) = 1 modulo p at a root before `done`, and H(r) = 0 at a later one. */
  ghost predicate InvertsAt(h: Poly, lo: int, k: nat, done: nat, p: int, j: nat)
    requires p > 0
  {
    && (j < done ==> Cong(Slope(RootProduct(lo, k), lo + j) * Eval(h, lo + j), 1, p))
    && (j >= done ==> Cong(Eval(h, lo + j), 0, p))
  }

  ghost predicate Inverts(h: Poly, lo: int, k: nat, done: nat, p: int)
    requires p > 0
  {
    forall j: nat :: j < k ==> InvertsAt(h, lo, k, done, p, j)
  }

  /** What one root adds to H: the Lagrange basis polynomial over the squared slope. */
  lemma BasisValue(g: Poly, quotient: Poly, lo: int, k: nat, i: nat, j: nat, inverse: int, p: int)
    requires Prime(p) && i < k <= p && j < k
    requires CongPoly(g, RootProduct(lo, k), p) && CongPoly(quotient, Quotient(g, lo + i), p)
    requires Cong(Eval(quotient, lo + i) * inverse, 1, p)
    ensures var v := Eval(quotient, lo + j) * (inverse * inverse);
            && (i == j ==> Cong(Slope(RootProduct(lo, k), lo + i) * v, 1, p))
            && (i != j ==> Cong(v, 0, p))
  {
    var root, x := lo + i, lo + j;
    EvalCong(g, RootProduct(lo, k), root, p);
    EvalCong(g, RootProduct(lo, k), x, p);
    EvalCong(quotient, Quotient(g, root), x, p);
    SyntheticDivision(g, root, x);
    RootVanishes(lo, k, i);
    RootVanishes(lo, k, j);
    if i == j {
      BasisAtRoot(Slope(RootProduct(lo, k), root), Eval(quotient, root), inverse, p);
    } else {
      DifferenceUnit(x, root, p);
      CongSub(Eval(g, x), 0, Eval(g, root), 0, p);
      CoprimeCancel(x - root, Eval(Quotient(g, root), x), p);
      CongMul(Eval(quotient, x), 0, inverse * inverse, inverse * inverse, p);
    }
  }

  lemma BasisAtRoot(slope: int, value: int, inverse: int, p: int)
    requires p > 0 && Cong(slope, value, p) && Cong(value * inverse, 1, p)
    ensures Cong(slope * (value * (inverse * inverse)), 1, p)
  {
    var vi := value * inverse;
    Assoc(value, inverse, inverse);
    assert value * (vi * inverse) == vi * vi by {
      Exchange(value, vi, inverse);
    }
    CongMul(slope, value, vi * inverse, vi * inverse, p);
    CongMul(vi, 1, vi, 1, p);
  }

  /** Adding one basis term moves the invariant of H to the next root. */
  lemma InvertsStep(h: Poly, next: Poly, g: Poly, quotient: Poly, lo: int, k: nat, i: nat, inverse: int, p: int)
    requires Prime(p) && i < k <= p && |h| == |quotient|
    requires CongPoly(g, RootProduct(lo, k), p) && CongPoly(quotient, Quotient(g, lo + i), p)
    requires Cong(Eval(quotient, lo + i) * inverse, 1, p)
    requires CongPoly(next, Add(h, Scale(inverse * inverse, quotient)), p)
    requires Inverts(h, lo, k, i, p)
    ensures Inverts(next, lo, k, i + 1, p)
  {
    var done := i + 1;
    forall j: nat | j < k
      ensures InvertsAt(next, lo, k, done, p, j)
    {
      var x := lo + j;
      assert InvertsAt(h, lo, k, i, p, j);
      BasisValue(g, quotient, lo, k, i, j, inverse, p);
      WeightedValue(h, next, quotient, inverse * inverse, x, p);
      NextValue(Slope(RootProduct(lo, k), x), Eval(h, x), Eval(quotient, x) * (inverse * inverse), Eval(next, x), j < i, j == i, p);
    }
  }

  lemma WeightedValue(h: Poly, next: Poly, quotient: Poly, w: int, x: int, p: int)
    requires p > 0 && |h| == |quotient| && CongPoly(next, Add(h, Scale(w, quotient)), p)
    ensures Cong(Eval(next, x), Eval(h, x) + Eval(quotient, x) * w, p)
  {
    EvalCong(next, Add(h, Scale(w, quotient)), x, p);
    EvalAdd(h, Scale(w, quotient), x);
    EvalScale(w, quotient, x);
  }

  lemma NextValue(slope: int, hv: int, v: int, next: int, before: bool, here: bool, p: int)
    requires p > 0 && Cong(next, hv + v, p) && !(before && here)
    requires before ==> Cong(slope * hv, 1, p)
    requires !before ==> Cong(hv, 0, p)
    requires here ==> Cong(slope * v, 1, p)
    requires !here ==> Cong(v, 0, p)
    ensures before || here ==> Cong(slope * next, 1, p)
    ensures !before && !here ==> Cong(next, 0, p)
  {
    CongScale(slope, next, hv + v, p);
    Distribute(slope, hv, v);
    if here {
      CongScale(slope, hv, 0, p);
      CongAdd(slope * hv, 0, slope * v, 1, p);
    } else {
      CongScale(slope, v, 0, p);
      if before {
        CongAdd(slope * hv, 1, slope * v, 0, p);
      } else {
        CongAdd(hv, 0, v, 0, p);
      }
    }
  }

  /** F = X - G*H has value r and slope 0 at every root r. */
  lemma ConstructedCertified(f: Poly, g: Poly, h: Poly, p: int, bound: int)
    requires Prime(p) && p * p > 0 && 0 <= 2 * bound < p
    requires |g| > 0 && CongPoly(g, RootProduct(-bound, 2 * bound + 1), p * p)
    requires Inverts(h, -bound, 2 * bound + 1, 2 * bound + 1, p)
    requires forall x :: Cong(Eval(f, x), x - Eval(g, x) * Eval(h, x), p * p)
    requires forall x :: Cong(Slope(f, x), 1 - Slope(Product(g, h), x), p)
    ensures Certify(f, p, bound)
  {
    forall r | -bound <= r <= bound
      ensures Evaluate(f, r, p * p) == r % (p * p) && Evaluate(Derivative(f), r, p) == 0
    {
      assert Cong(Eval(f, r), r - Eval(g, r) * Eval(h, r), p * p);
      assert Cong(Slope(f, r), 1 - Slope(Product(g, h), r), p);
      CertifiedAtRoot(f, g, h, p, -bound, 2 * bound + 1, r + bound, r);
    }
  }

  lemma CertifiedAtRoot(f: Poly, g: Poly, h: Poly, p: int, lo: int, k: nat, j: nat, r: int)
    requires p > 0 && p * p > 0 && j < k && r == lo + j
    requires |g| > 0 && CongPoly(g, RootProduct(lo, k), p * p) && Inverts(h, lo, k, k, p)
    requires Cong(Eval(f, r), r - Eval(g, r) * Eval(h, r), p * p)
    requires Cong(Slope(f, r), 1 - Slope(Product(g, h), r), p)
    ensures Evaluate(f, r, p * p) == r % (p * p) && Evaluate(Derivative(f), r, p) == 0
  {
    var slope := Slope(RootProduct(lo, k), r);
    assert InvertsAt(h, lo, k, k, p, j);
    RootVanishes(lo, k, j);
    EvalCong(g, RootProduct(lo, k), r, p * p);
    SlopeProduct(g, h, r);
    PointCertified(f, p, r);
    RootIdentities(Eval(f, r), Slope(f, r), r, Eval(g, r), Slope(g, r), slope, Eval(h, r), Slope(h, r), p);
  }

  lemma RootIdentities(f: int, df: int, r: int, g: int, dg: int, de: int, h: int, dh: int, p: int)
    requires p > 0 && p * p > 0
    requires Cong(f, r - g * h, p * p) && Cong(df, 1 - (dg * h + g * dh), p)
    requires Cong(g, 0, p * p) && Cong(dg, de, p * p) && Cong(de * h, 1, p)
    ensures Cong(f, r, p * p) && Cong(df, 0, p)
  {
    CongDivisor(g, 0, p, p);
    CongDivisor(dg, de, p, p);
    CongMul(g, 0, h, h, p * p);
    CongSub(r, r, g * h, 0, p * p);
    CongMul(dg, de, h, h, p);
    CongMul(g, 0, dh, dh, p);
    CongAdd(dg * h, 1, g * dh, 0, p);
    CongSub(1, 1, dg * h + g * dh, 1, p);
  }

  /** Adding the weighted quotient to the running polynomial. */
  method AddWeighted(h: Poly, quotient: Poly, inverse: int, p: int) returns (next: Poly)
    requires p > 0 && |h| == |quotient|
    ensures CongPoly(next, Add(h, Scale(inverse * inverse, quotient)), p)
  {
    next := h;
    for i := 0 to |quotient|
      invariant |next| == |h|
      invariant forall d :: 0 <= d < i ==> Cong(next[d], h[d] + (inverse * inverse) * quotient[d], p)
      invariant forall d :: i <= d < |h| ==> next[d] == h[d]
    {
      Assoc(quotient[i], inverse, inverse);
      ModCong(next[i] + quotient[i] * inverse * inverse, p);
      next := next[i := (next[i] + quotient[i] * inverse * inverse) % p];
    }
  }

  /** G by repeated multiplication, one root at a time. */
  method BuildRoots(bound: int, modulus: int) returns (g: Poly)
    requires modulus > 1 && bound >= 0
    ensures CongPoly(g, RootProduct(-bound, 2 * bound + 1), modulus)
  {
    g := [1];
    for k := 0 to 2 * bound + 1
      invariant CongPoly(g, RootProduct(-bound, k), modulus)
    {
      var root := -bound + k;
      ghost var before := g;
      g := Multiply(g, [-root, 1], modulus);
      ProductCong(before, RootProduct(-bound, k), [-root, 1], modulus);
    }
  }

  lemma RowCong(a: Poly, b: Poly, c: Poly, i: nat, m: int)
    requires m > 0 && i < |a| && CongPoly(a, b, m)
    ensures CongPoly(Row(a, i, c), Row(b, i, c), m)
  {
    forall d | 0 <= d < |Row(a, i, c)|
      ensures Cong(Row(a, i, c)[d], Row(b, i, c)[d], m)
    {
      if i <= d < i + |c| {
        CongMul(a[i], b[i], c[d - i], c[d - i], m);
      }
    }
  }

  lemma {:induction false} PartialCong(a: Poly, b: Poly, c: Poly, i: nat, m: int)
    requires m > 0 && |a| > 0 && CongPoly(a, b, m) && i <= |a|
    ensures CongPoly(PartialProduct(a, c, i), PartialProduct(b, c, i), m)
  {
    if i > 0 {
      PartialCong(a, b, c, i - 1, m);
      RowCong(a, b, c, i - 1, m);
      CongPolyAdd(PartialProduct(a, c, i - 1), PartialProduct(b, c, i - 1), Row(a, i - 1, c), Row(b, i - 1, c), m);
    }
  }

  lemma ProductCong(a: Poly, b: Poly, c: Poly, m: int)
    requires m > 0 && |a| > 0 && CongPoly(a, b, m)
    ensures CongPoly(Product(a, c), Product(b, c), m)
  {
    PartialCong(a, b, c, |a|, m);
  }

  lemma ZeroInverts(n: nat, lo: int, k: nat, p: int)
    requires p > 0
    ensures Inverts(Zero(n), lo, k, 0, p)
  {
    forall j: nat | j < k
      ensures InvertsAt(Zero(n), lo, k, 0, p, j)
    {
      EvalZero(n, lo + j);
    }
  }

  /** H with H(r) = 1/G'(r) modulo p at every root. */
  method BuildInverse(g: Poly, p: int, bound: int) returns (h: Poly)
    requires Prime(p) && 0 <= 2 * bound < p && CongPoly(g, RootProduct(-bound, 2 * bound + 1), p)
    ensures |h| == |g| - 1 && Inverts(h, -bound, 2 * bound + 1, 2 * bound + 1, p)
  {
    ghost var lo, k := -bound, 2 * bound + 1;
    h := Zero(|g| - 1);
    ZeroInverts(|g| - 1, lo, k, p);
    for i := 0 to 2 * bound + 1
      invariant |h| == |g| - 1 && Inverts(h, lo, k, i, p)
    {
      var root := -bound + i;
      var quotient := Divide(g, root, p);
      RemainderVanishes(g, quotient, lo, k, i, p);
      assert (g[0] + root * quotient[0]) % p == 0;
      var value := EvaluateLoop(quotient, root, p);
      InverseExists(g, quotient, lo, k, i, p);
      var inverse := Inverse(value, p).value;
      ghost var before := h;
      h := AddWeighted(h, quotient, inverse, p);
      InvertsStep(before, h, g, quotient, lo, k, i, inverse, p);
    }
  }

  lemma RemainderVanishes(g: Poly, quotient: Poly, lo: int, k: nat, i: nat, p: int)
    requires p > 0 && i < k && CongPoly(g, RootProduct(lo, k), p) && |quotient| > 0
    requires Cong(g[0] + (lo + i) * quotient[0], Eval(g, lo + i), p)
    ensures (g[0] + (lo + i) * quotient[0]) % p == 0
  {
    EvalCong(g, RootProduct(lo, k), lo + i, p);
    RootVanishes(lo, k, i);
    CongMod(g[0] + (lo + i) * quotient[0], 0, p);
    DivModUnique(0, p, 0, 0);
  }

  /** The slope at the root is a unit, so the inverse exists. */
  lemma InverseExists(g: Poly, quotient: Poly, lo: int, k: nat, i: nat, p: int)
    requires Prime(p) && i < k <= p && CongPoly(g, RootProduct(lo, k), p)
    requires CongPoly(quotient, Quotient(g, lo + i), p)
    ensures var v := Inverse(Evaluate(quotient, lo + i, p), p);
            v.Some? && Cong(Eval(quotient, lo + i) * v.value, 1, p)
  {
    var root := lo + i;
    EvalCong(g, RootProduct(lo, k), root, p);
    EvalCong(quotient, Quotient(g, root), root, p);
    SyntheticDivision(g, root, root);
    SlopeUnit(lo, k, i, p);
    EvaluateIsEval(quotient, root, p);
    CoprimeMod(Slope(RootProduct(lo, k), root), Eval(quotient, root), p);
    ReducedInverse(Eval(quotient, root), p);
  }

  lemma ReducedInverse(e: int, p: int)
    requires p > 0 && Coprime(e, p)
    ensures var v := Inverse(e % p, p); v.Some? && Cong(e * v.value, 1, p)
  {
    ModCong(e, p);
    CoprimeMod(e, e % p, p);
    InverseCorrect(e % p, p);
    var v := Inverse(e % p, p).value;
    CongMul(e % p, e, v, v, p);
  }

  /** X - f, coefficient by coefficient. */
  lemma SubtractFromX(f: Poly, gh: Poly, m: int, x: int)
    requires m > 0 && |f| == |gh| >= 2
    requires forall d :: 0 <= d < |f| ==> Cong(f[d], (if d == 1 then 1 else 0) - gh[d], m)
    ensures Cong(Eval(f, x), x - Eval(gh, x), m) && Cong(Slope(f, x), 1 - Slope(gh, x), m)
  {
    var id := [0, 1] + Zero(|f| - 2);
    assert CongPoly(f, Sub(id, gh), m);
    EvalCong(f, Sub(id, gh), x, m);
    EvalSub(id, gh, x);
    EvalIdentity(|f| - 2, x);
  }

  lemma EvalSub(f: Poly, g: Poly, x: int)
    requires |f| == |g|
    ensures Eval(Sub(f, g), x) == Eval(f, x) - Eval(g, x)
    ensures Slope(Sub(f, g), x) == Slope(f, x) - Slope(g, x)
  {
    EvalAdd(f, Scale(-1, g), x);
    SlopeAdd(f, Scale(-1, g), x);
    EvalScale(-1, g, x);
    SlopeScale(-1, g, x);
  }

  lemma EvalIdentity(k: nat, x: int)
    ensures Eval([0, 1] + Zero(k), x) == x && Slope([0, 1] + Zero(k), x) == 1
  {
    assert [0, 1] + Zero(k) == [0] + ([1] + Zero(k));
    EvalCons(0, [1] + Zero(k), x);
    EvalCons(1, Zero(k), x);
    EvalZero(k, x);
  }

  /** Dropping a zero leading coefficient changes nothing. */
  lemma DropZero(f: Poly, x: int)
    requires |f| > 0 && f[|f| - 1] == 0
    ensures Eval(f[..|f| - 1], x) == Eval(f, x) && Slope(f[..|f| - 1], x) == Slope(f, x)
    decreases |f|
  {
    var d := f[..|f| - 1];
    EvalSplit(f, x);
    EvalSplit(d, x);
    if |f| == 1 {
      assert f[1..] == [];
      EvalNil(x);
    } else {
      DropZero(f[1..], x);
      assert d[1..] == f[1..][..|f| - 2];
    }
  }

  /** Negated product plus X, then trailing zeros removed. */
  method Assemble(product: Poly, modulus: int) returns (f: Poly)
    requires modulus > 1 && |product| > 0
    ensures 1 <= |f| <= Max(|product|, 2) && Canonical(f, modulus)
    ensures |f| > 1 ==> f[|f| - 1] != 0
    ensures |product| >= 2 ==> forall x ::
              Cong(Eval(f, x), x - Eval(product, x), modulus) && Cong(Slope(f, x), 1 - Slope(product, x), modulus)
  {
    f := seq(|product|, i requires 0 <= i < |product| => (-product[i]) % modulus);
    forall i | 0 <= i < |product|
      ensures Cong(f[i], -product[i], modulus)
    {
      ModCong(-product[i], modulus);
    }
    if |f| < 2 {
      f := f + [0];
    }
    ModCong(f[1] + 1, modulus);
    if |product| >= 2 {
      CongAdd(f[1], -product[1], 1, 1, modulus);
    }
    f := f[1 := (f[1] + 1) % modulus];
    ghost var full := f;
    if |product| >= 2 {
      forall x
        ensures Cong(Eval(full, x), x - Eval(product, x), modulus) && Cong(Slope(full, x), 1 - Slope(product, x), modulus)
      {
        SubtractFromX(full, product, modulus, x);
      }
    }
    while |f| > 1 && f[|f| - 1] == 0
      invariant 1 <= |f| <= |full| && Canonical(f, modulus)
      invariant forall x :: Eval(f, x) == Eval(full, x) && Slope(f, x) == Slope(full, x)
    {
      forall x
        ensures Eval(f[..|f| - 1], x) == Eval(full, x) && Slope(f[..|f| - 1], x) == Slope(full, x)
      {
        DropZero(f, x);
      }
      f := f[..|f| - 1];
    }
  }

  /**
   The construction refuses exactly the parameters outside its domain, and
   otherwise always yields a polynomial of degree at most 4*bound + 1 that
   passes the certificate.
   */
  method Construct(p: int, bound: int) returns (result: Result<Poly>)
    ensures result.Ok? <==> Prime(p) && p != 2 && 0 <= 2 * bound < p
    ensures result.Ok? ==> p * p > 0 && Certify(result.value, p, bound)
    ensures result.Ok? ==> 1 <= |result.value| <= 4 * bound + 2 && Canonical(result.value, p * p)
  {
    TrialDivision(p);
    if !PassesTrialDivision(p) || !(0 <= 2 * bound < p) {
      return Err;
    }
    var modulus := p * p;
    MulMono(3, p, p);
    var g := BuildRoots(bound, modulus);
    ReduceModulus(g, RootProduct(-bound, 2 * bound + 1), p);
    var h := BuildInverse(g, p, bound);
    var product := Multiply(g, h, modulus);
    var f := Assemble(product, modulus);
    forall x
      ensures Cong(Eval(f, x), x - Eval(g, x) * Eval(h, x), modulus)
      ensures Cong(Slope(f, x), 1 - Slope(Product(g, h), x), p)
    {
      AssembledValues(f, product, g, h, x, p);
    }
    ConstructedCertified(f, g, h, p, bound);
    return Ok(f);
  }

  lemma ReduceModulus(g: Poly, e: Poly, p: int)
    requires p > 0 && p * p > 0 && CongPoly(g, e, p * p)
    ensures CongPoly(g, e, p)
  {
    forall i | 0 <= i < |g|
      ensures Cong(g[i], e[i], p)
    {
      CongDivisor(g[i], e[i], p, p);
    }
  }

  lemma AssembledValues(f: Poly, product: Poly, g: Poly, h: Poly, x: int, p: int)
    requires p > 0 && p * p > 0 && |g| > 0 && CongPoly(product, Product(g, h), p * p)
    requires Cong(Eval(f, x), x - Eval(product, x), p * p) && Cong(Slope(f, x), 1 - Slope(product, x), p * p)
    ensures Cong(Eval(f, x), x - Eval(g, x) * Eval(h, x), p * p)
    ensures Cong(Slope(f, x), 1 - Slope(Product(g, h), x), p)
  {
    EvalCong(product, Product(g, h), x, p * p);
    EvalProduct(g, h, x);
    SwitchProduct(Eval(f, x), Slope(f, x), x, Eval(product, x), Slope(product, x),
      Eval(g, x) * Eval(h, x), Slope(Product(g, h), x), p);
  }

  lemma SwitchProduct(f: int, df: int, x: int, e: int, de: int, gh: int, dgh: int, p: int)
    requires p > 0 && p * p > 0 && Cong(f, x - e, p * p) && Cong(df, 1 - de, p * p)
    requires Cong(e, gh, p * p) && Cong(de, dgh, p * p)
    ensures Cong(f, x - gh, p * p) && Cong(df, 1 - dgh, p)
  {
    CongSub(x, x, e, gh, p * p);
    CongSub(1, 1, de, dgh, p * p);
    CongDivisor(df, 1 - dgh, p, p);
  }
}
