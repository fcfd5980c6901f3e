/**
 Exact radius bounds for noisy expansion: the residual of component rounding,
 the modulus switch, the sparse-key route and the outer encryption. Each bound
 is proved sound for every ciphertext and secret it admits; the fractions of
 the oracle are floors over a common denominator.
 */
module DigitRadius {
  import opened Arith
  import opened Units
  import opened Vectors
  import opened Negacyclic
  import opened NoiseOracle
  import opened CarryBridge
  import opened Wrappers

  /** floor(p*V/q + (h + 1)*(q - 1)/(2q)), refused outside the admitted history. */
  function ResidualRadiusForSecret(q: int, p: int, h: int, v: int): Result<int>
  {
    if q < 3 || q % 2 == 0 || p < 3 || p % 2 == 0 || h < 0 || v < 0 || 2 * v >= q then Err
    else Ok((2 * (p * v) + (h + 1) * (q - 1)) / (2 * q))
  }

  /** The dense bound uses the full ring degree. */
  function ResidualRadius(q: int, p: int, n: int, v: int): Result<int>
  {
    if n < 1 then Err else ResidualRadiusForSecret(q, p, n, v)
  }

  function SupportsBoundedDigit(q: int, p: int, n: int, v: int, bound: int): Result<bool>
  {
    if !(0 <= 2 * bound < p) then Ok(false)
    else
      match ResidualRadius(q, p, n, v)
      case Err => Err
      case Ok(radius) => Ok(radius <= bound)
  }

  /** floor(q'/q*V + p*(h + 1)*(q - 1)/(2q)): the error after switching q to q'. */
  function ModswitchBound(q: int, q': int, p: int, h: int, v: int): Result<int>
  {
    if ResidualRadiusForSecret(q, p, h, v).Err? || q' < 3 || q' % 2 == 0 || q' > q then Err
    else Ok((2 * (q' * v) + p * ((h + 1) * (q - 1))) / (2 * q))
  }

  /** Modulus switch, key switch with phase error k, then expansion: (V, V', radius). */
  function SparseRoute(q: int, q': int, p: int, dense: int, sparse: int, v: int, k: int): Result<(int, int, int)>
  {
    if k < 0 then Err
    else
      match ModswitchBound(q, q', p, dense, v)
      case Err => Err
      case Ok(before) =>
        var after := before + p * k;
        match ResidualRadiusForSecret(q', p, sparse, after)
        case Err => Err
        case Ok(radius) => Ok((before, after, radius))
  }

  /** Every coefficient of the scaled error p*phase - q*m, in the chart of width p*q, is at most v. */
  ghost predicate WithinError(phase: Poly, m: Poly, q: int, p: int, v: int)
    requires p * q > 0
  {
    |phase| == |m| && forall i :: 0 <= i < |phase| ==> Abs(Centered(p * phase[i] - q * m[i], p * q)) <= v
  }

  /** p*phase = q*m + error + p*q*winding. */
  lemma ErrorWitness(phase: int, m: int, q: int, p: int) returns (k: int)
    requires p * q > 0
    ensures p * phase == q * m + Centered(p * phase - q * m, p * q) + (p * q) * k
  {
    var x := p * phase - q * m;
    CenteredRange(x, p * q);
    k := CongWitness(x, Centered(x, p * q), p * q);
  }

  /** The rounding residual under a secret of bounded l1 norm. */
  lemma ResidualNorm(c0: Poly, c1: Poly, s: Poly, q: int, t: int, h: int, bound: int)
    requires OracleModulus(q) && |c0| == |c1| == |s| && L1(s) <= h && bound == (h + 1) * (q - 1)
    ensures HalfBounded(SwitchResidual(c0, c1, s, q, t), bound)
  {
    var r0, r1, y := SmallResiduals(c0, c1, q, t);
    AffineNorm(r0, r1, s, h, y, bound);
  }

  lemma SmallResiduals(c0: Poly, c1: Poly, q: int, t: int) returns (r0: Poly, r1: Poly, y: int)
    requires OracleModulus(q)
    ensures r0 == Residual(c0, q, t) && r1 == Residual(c1, q, t) && y == q - 1
    ensures HalfBounded(r0, y) && HalfBounded(r1, y)
  {
    ResidualSmall(c0, q, t);
    ResidualSmall(c1, q, t);
    r0, r1, y := Residual(c0, q, t), Residual(c1, q, t), q - 1;
  }

  lemma AffineNorm(r0: Poly, r1: Poly, s: Poly, h: int, y: int, bound: int)
    requires |r0| == |r1| == |s| && L1(s) <= h && y >= 0 && HalfBounded(r0, y) && HalfBounded(r1, y)
    requires bound == (h + 1) * y
    ensures HalfBounded(Affine(r0, r1, s), bound)
  {
    NormAction(r1, s, h, y);
    Distribute(y, h, 1);
    HalfAdd(r0, Mul(r1, s), y, h * y);
  }

  /** Multiplying by a secret of l1 norm at most h grows coefficients at most h-fold. */
  lemma NormAction(e: Poly, s: Poly, h: int, y: int)
    requires |e| == |s| && L1(s) <= h && y >= 0 && HalfBounded(e, y)
    ensures HalfBounded(Mul(e, s), h * y)
  {
    MulComm(e, s);
    HalfMul(s, e, y);
    MulMono(L1(s), h, y);
    HalfWeaken(Mul(s, e), L1(s) * y, h * y);
  }

  /** t*(c0 + c1*s)[j] = q*(rounded phase)[j] + residual[j]. */
  lemma SwitchCoefficient(c0: Poly, c1: Poly, s: Poly, q: int, t: int, j: nat)
    requires OracleModulus(q) && j < |c0| == |c1| == |s|
    ensures t * Affine(c0, c1, s)[j]
         == q * Affine(ScaleRound(c0, q, t), ScaleRound(c1, q, t), s)[j] + SwitchResidual(c0, c1, s, q, t)[j]
  {
    SwitchIdentity(c0, c1, s, q, t);
    ReadScaledSum(t, Affine(c0, c1, s), q, Affine(ScaleRound(c0, q, t), ScaleRound(c1, q, t), s),
      SwitchResidual(c0, c1, s, q, t), j);
  }

  /** A value v with q*v = x, 2|x| <= y lies within floor(y/(2q)). */
  lemma FloorBound(q: int, v: int, x: int, y: int)
    requires q > 0 && q * v == x && 2 * Abs(x) <= y
    ensures Abs(v) <= y / (2 * q)
  {
    AbsMul(q, v);
    Assoc(2, q, Abs(v));
    var d, r := y / (2 * q), y % (2 * q);
    assert y == (2 * q) * d + r;
    Distribute(2 * q, d, 1);
    CancelLess(2 * q, Abs(v), d + 1);
  }

  // --------------------------------------------------------- noisy expansion

  /**
   Expanding both components to p*p gives w = p*m + rho modulo p*p with rho
   within the certified radius, for every ciphertext under a secret of l1 norm
   at most h.
   */
  lemma ExpansionSound(c0: Poly, c1: Poly, s: Poly, m: Poly, q: int, p: int, h: int, v: int, j: nat) returns (rho: int)
    requires ResidualRadiusForSecret(q, p, h, v).Ok? && p * q > 0 && p * p > 0
    requires j < |c0| == |c1| == |s| && L1(s) <= h
    requires WithinError(Affine(c0, c1, s), m, q, p, v)
    ensures Abs(rho) <= ResidualRadiusForSecret(q, p, h, v).value
    ensures Cong(Affine(ScaleRound(c0, q, p * p), ScaleRound(c1, q, p * p), s)[j], p * m[j] + rho, p * p)
  {
    var phase := Affine(c0, c1, s)[j];
    var w := Affine(ScaleRound(c0, q, p * p), ScaleRound(c1, q, p * p), s)[j];
    var r := SwitchResidual(c0, c1, s, q, p * p)[j];
    ResidualNorm(c0, c1, s, q, p * p, h, (h + 1) * (q - 1));
    SwitchCoefficient(c0, c1, s, q, p * p, j);
    var k := ErrorWitness(phase, m[j], q, p);
    var e := Centered(p * phase - q * m[j], p * q);
    rho := ExpansionCoefficient(phase, m[j], w, r, e, k, q, p, h, v);
  }

  lemma ExpansionCoefficient(phase: int, m: int, w: int, r: int, e: int, k: int, q: int, p: int, h: int, v: int)
    returns (rho: int)
    requires ResidualRadiusForSecret(q, p, h, v).Ok? && p * p > 0
    requires (p * p) * phase == q * w + r && p * phase == q * m + e + (p * q) * k
    requires Abs(e) <= v && 2 * Abs(r) <= (h + 1) * (q - 1)
    ensures Abs(rho) <= ResidualRadiusForSecret(q, p, h, v).value
    ensures Cong(w, p * m + rho, p * p)
  {
    rho := w - p * m - (p * p) * k;
    CongFrom(w, p * m + rho, p * p, k);
    assert q * rho == p * e - r by {
      ExpansionIdentity(phase, m, w, r, e, k, q, p);
    }
    AbsMulBound(p, e, p, v);
    FloorBound(q, rho, p * e - r, 2 * (p * v) + (h + 1) * (q - 1));
  }

  lemma ExpansionIdentity(phase: int, m: int, w: int, r: int, e: int, k: int, q: int, p: int)
    requires (p * p) * phase == q * w + r && p * phase == q * m + e + (p * q) * k
    ensures q * (w - p * m - (p * p) * k) == p * e - r
  {
    DistributeSub(q, w - p * m, (p * p) * k);
    DistributeSub(q, w, p * m);
    Exchange(q, p, m);
    Assoc(p, p, phase);
    Distribute(p, q * m + e, (p * q) * k);
    Distribute(p, q * m, e);
    Assoc(p, p * q, k);
    Assoc(p, p, q);
    assert p * (p * q) == q * (p * p);
    Assoc(q, p * p, k);
  }

  // ------------------------------------------------------- exactness of the radius

  /** x >= 0 is within floor(y/(2q)) exactly when 2qx is within y. */
  lemma FloorExact(q: int, x: int, y: int)
    requires q > 0
    ensures x <= y / (2 * q) <==> 2 * q * x <= y
  {
    var d, r := y / (2 * q), y % (2 * q);
    assert y == (2 * q) * d + r;
    if x <= d {
      MulMono(x, d, 2 * q);
    } else {
      MulMono(d + 1, x, 2 * q);
      Distribute(2 * q, d, 1);
    }
  }

  /** The radius is the largest integer within the rational bound p*V/q + (h + 1)(q - 1)/(2q). */
  lemma RadiusExact(q: int, p: int, h: int, v: int, rho: int)
    requires ResidualRadiusForSecret(q, p, h, v).Ok?
    ensures Abs(rho) <= ResidualRadiusForSecret(q, p, h, v).value <==> 2 * q * Abs(rho) <= 2 * p * v + (h + 1) * (q - 1)
  {
    Assoc(2, p, v);
    FloorExact(q, Abs(rho), 2 * (p * v) + (h + 1) * (q - 1));
  }

  lemma SupportOfAdmitted(q: int, p: int, n: int, v: int, bound: int)
    requires ResidualRadius(q, p, n, v).Ok? && 0 <= 2 * bound < p
    ensures SupportsBoundedDigit(q, p, n, v, bound) == Ok(true) <==>
              forall rho: int :: 2 * q * Abs(rho) <= 2 * p * v + (n + 1) * (q - 1) ==> Abs(rho) <= bound
  {
    var radius := ResidualRadius(q, p, n, v).value;
    MulNonNegative(p, v);
    MulNonNegative(n + 1, q - 1);
    DivNonNegative(2 * (p * v) + (n + 1) * (q - 1), 2 * q);
    RadiusExact(q, p, n, v, radius);
    forall rho: int
      ensures Abs(rho) <= radius <==> 2 * q * Abs(rho) <= 2 * p * v + (n + 1) * (q - 1)
    {
      RadiusExact(q, p, n, v, rho);
    }
    assert Abs(radius) == radius;
  }

  /** The parameters that the radius is defined for. */
  predicate AdmittedRadius(q: int, p: int, n: int, v: int)
  {
    n >= 1 && q >= 3 && q % 2 == 1 && p >= 3 && p % 2 == 1 && 0 <= v && 2 * v < q
  }

  /**
   The support test is exact. With 2B outside [0, p) it answers false without looking at
   the parameters, otherwise it refuses exactly the parameters that are not admitted; it
   answers true if and only if, on top, every integer residual within the rational bound
   has magnitude at most B.
   */
  lemma SupportExact(q: int, p: int, n: int, v: int, bound: int)
    ensures SupportsBoundedDigit(q, p, n, v, bound).Err? <==> 0 <= 2 * bound < p && !AdmittedRadius(q, p, n, v)
    ensures SupportsBoundedDigit(q, p, n, v, bound) == Ok(true) <==>
              && 0 <= 2 * bound < p && AdmittedRadius(q, p, n, v)
              && forall rho: int :: 2 * q * Abs(rho) <= 2 * p * v + (n + 1) * (q - 1) ==> Abs(rho) <= bound
  {
    if 0 <= 2 * bound < p && AdmittedRadius(q, p, n, v) {
      SupportOfAdmitted(q, p, n, v, bound);
    }
  }

  /**
   The modulus switch bound is exact: its refusals, and otherwise the largest integer
   within the rational bound q'*V/q + p*(h + 1)*(q - 1)/(2q).
   */
  lemma ModswitchExact(q: int, q': int, p: int, h: int, v: int, x: int)
    ensures ModswitchBound(q, q', p, h, v).Ok? <==>
              && q >= 3 && q % 2 == 1 && p >= 3 && p % 2 == 1 && h >= 0 && 0 <= v && 2 * v < q
              && 3 <= q' <= q && q' % 2 == 1
    ensures ModswitchBound(q, q', p, h, v).Ok? ==>
              (x <= ModswitchBound(q, q', p, h, v).value <==> 2 * q * x <= 2 * (q' * v) + p * ((h + 1) * (q - 1)))
  {
    if ModswitchBound(q, q', p, h, v).Ok? {
      FloorExact(q, x, 2 * (q' * v) + p * ((h + 1) * (q - 1)));
    }
  }

  /** A secret of h ones. */
  function Ones(h: nat, n: nat): (s: Poly)
    requires h <= n
    ensures |s| == n && Ternary(s)
  {
    seq(n, i requires 0 <= i < n => if i < h then 1 else 0)
  }

  lemma {:induction false} OnesNorm(h: nat, n: nat)
    requires h <= n
    ensures L1(Ones(h, n)) == h
  {
    if n > 0 {
      if h > 0 {
        assert Ones(h, n)[1..] == Ones(h - 1, n - 1);
        OnesNorm(h - 1, n - 1);
      } else {
        assert Ones(0, n)[1..] == Ones(0, n - 1);
        OnesNorm(0, n - 1);
      }
    }
  }

  /** At the top coefficient the h ones add up h copies of the constant. */
  lemma {:induction false} OnesConvolution(c: int, h: nat, n: nat, m: nat)
    requires h <= n && 0 < n && m <= n
    ensures Convolve(Constant(c, n), Ones(h, n), n - 1, m) == (if m <= n - h then 0 else (m - (n - h)) * c)
  {
    if m > 0 {
      OnesConvolution(c, h, n, m - 1);
      Distribute(c, m - 1 - (n - h), 1);
    }
  }

  lemma OnesAction(c: int, h: nat, n: nat)
    requires h <= n && 0 < n
    ensures Mul(Constant(c, n), Ones(h, n))[n - 1] == h * c
  {
    MulIsConvolution(Constant(c, n), Ones(h, n), n - 1);
    OnesConvolution(c, h, n, n);
  }

  /** The rounding of the extreme value is the negated radius. */
  lemma ExtremeRounding(q: int, p: int, h: int, v: int, half: int)
    requires ResidualRadiusForSecret(q, p, h, v).Ok? && q == 2 * half + 1
    ensures Nearest(-(p * v + h * half), q) == -ResidualRadiusForSecret(q, p, h, v).value
  {
    Distribute(half, h, 1);
    Exchange(2, h + 1, half);
    ExtremeQuotient(q, p * v + h * half, half, ResidualRadiusForSecret(q, p, h, v).value);
  }

  lemma ExtremeQuotient(q: int, y: int, half: int, radius: int)
    requires q == 2 * half + 1 && half >= 0 && radius == 2 * (y + half) / (2 * q)
    ensures Nearest(-y, q) == -radius
  {
    var top := 2 * (y + half);
    assert top == (2 * q) * radius + top % (2 * q);
    Assoc(2, q, radius);
    AbsoluteRest(q, y, radius, half);
    DistributeSub(q, 0, radius);
    NearestUnique(-y, q, -radius);
  }

  lemma AbsoluteRest(q: int, y: int, radius: int, half: int)
    requires q == 2 * half + 1 && 0 <= 2 * (y + half) - 2 * (q * radius) < 2 * q
    ensures 2 * Abs(y - q * radius) <= q - 1
  {
  }

  /** Integers congruent to -v modulo q after multiplication by p, and to v modulo p after multiplication by q. */
  lemma MessageAndPhase(q: int, p: int, v: int) returns (phase: int, m: int, unit: int)
    requires q > 0 && p > 0 && p * q > 0 && Coprime(p, q)
    ensures Cong(p * unit, 1, q) && Cong(p * phase, -v, q)
    ensures Cong(p * phase - q * m, -v, p * q)
  {
    var x, y :| Bezout(p, q, x, y);
    unit, phase, m := x, -(v * x), v * y;
    CongFrom(p * x, 1, q, -y);
    Exchange(p, v, x);
    Exchange(q, v, y);
    Distribute(v, p * x, q * y);
    DistributeSub(p, 0, v * x);
    CongFrom(p * phase, -v, q, v * y);
    CongFrom(p * phase - q * m, -v, p * q, 0);
  }

  /**
   The radius is attained: for coprime moduli, every l1 norm h up to the degree and every
   history V, some ciphertext under a ternary secret of that norm is within V of its
   message and leaves exactly the radius in its top coefficient.
   */
  lemma RadiusAttained(q: int, p: int, n: nat, h: nat, v: int) returns (c0: Poly, c1: Poly, s: Poly, m: Poly)
    requires ResidualRadiusForSecret(q, p, h, v).Ok? && Coprime(p, q) && 0 < n && h <= n && p * q > 0 && p * p > 0
    ensures n == |c0| == |c1| == |s| == |m| && Ternary(s) && L1(s) == h
    ensures WithinError(Affine(c0, c1, s), m, q, p, v)
    ensures Cong(Affine(ScaleRound(c0, q, p * p), ScaleRound(c1, q, p * p), s)[n - 1],
                 p * m[n - 1] - ResidualRadiusForSecret(q, p, h, v).value, p * p)
  {
    var half := q / 2;
    var phase, message, unit := MessageAndPhase(q, p, v);
    var g := half * (unit * unit);
    SquaredUnit(p, unit, half, q);
    s, c1, m := Ones(h, n), Constant(g, n), Constant(message, n);
    var target := Constant(phase, n);
    c0 := Sub(target, Mul(c1, s));
    assert Affine(c0, c1, s) == target;
    OnesNorm(h, n);
    ErrorOfConstants(phase, message, q, p, v, n);
    OnesAction(g, h, n);
    ConstantResidual(g, n, q, p * p, half);
    OnesAction(half, h, n);
    SwitchCoefficient(c0, c1, s, q, p * p, n - 1);
    TopResidual(phase, g, h, c0[n - 1], q, p, v, half);
    var k := CongWitness(p * phase - q * message, -v, p * q);
    AttainedCoefficient(phase, message, Affine(ScaleRound(c0, q, p * p), ScaleRound(c1, q, p * p), s)[n - 1],
      SwitchResidual(c0, c1, s, q, p * p)[n - 1], k, q, p, h, v, half);
  }

  lemma SquaredUnit(p: int, unit: int, half: int, q: int)
    requires q > 0 && Cong(p * unit, 1, q)
    ensures Cong((p * p) * (half * (unit * unit)), half, q)
  {
    CongMul(p * unit, 1, p * unit, 1, q);
    CongScale(half, (p * unit) * (p * unit), 1, q);
    Exchange(p * p, half, unit * unit);
    SquareOfProduct(p, unit);
  }

  lemma SquareOfProduct(p: int, u: int)
    ensures (p * u) * (p * u) == (p * p) * (u * u)
  {
    Assoc(p, u, p * u);
    Exchange(u, p, u);
    Assoc(p, p, u * u);
  }

  lemma ErrorOfConstants(phase: int, message: int, q: int, p: int, v: int, n: nat)
    requires q > 0 && p > 0 && p * q > 0 && v >= 0 && Cong(p * phase - q * message, -v, p * q)
    ensures WithinError(Constant(phase, n), Constant(message, n), q, p, v)
  {
    CenteredLeast(p * phase - q * message, -v, p * q);
  }

  /** The residual of the first component at the top coefficient. */
  lemma TopResidual(phase: int, g: int, h: int, c: int, q: int, p: int, v: int, half: int)
    requires OracleModulus(q) && q == 2 * half + 1 && c == phase - h * g
    requires Cong(p * phase, -v, q) && Cong((p * p) * g, half, q)
    ensures (p * p) * c - q * Nearest((p * p) * c, q) == Centered(-(p * v + h * half), q)
  {
    NearestResidual((p * p) * c, q);
    CongScale(p, p * phase, -v, q);
    Assoc(p, p, phase);
    DistributeSub(p, 0, v);
    CongScale(h, (p * p) * g, half, q);
    Exchange(p * p, h, g);
    CongSub((p * p) * phase, -(p * v), h * ((p * p) * g), h * half, q);
    DistributeSub(p * p, phase, h * g);
    CenteredCong((p * p) * c, -(p * v + h * half), q);
  }

  /** With the extreme residual the digit is exactly the radius. */
  lemma AttainedCoefficient(phase: int, m: int, w: int, r: int, k: int, q: int, p: int, h: int, v: int, half: int)
    requires ResidualRadiusForSecret(q, p, h, v).Ok? && p * p > 0 && q == 2 * half + 1
    requires (p * p) * phase == q * w + r && p * phase - q * m == -v + (p * q) * k
    requires r == Centered(-(p * v + h * half), q) + h * half
    ensures Cong(w, p * m - ResidualRadiusForSecret(q, p, h, v).value, p * p)
  {
    var x := -(p * v + h * half);
    var rho := w - p * m - (p * p) * k;
    ExpansionIdentity(phase, m, w, r, -v, k, q, p);
    DistributeSub(p, 0, v);
    NearestResidual(x, q);
    assert q * rho == q * Nearest(x, q);
    CancelEqual(q, rho, Nearest(x, q));
    ExtremeRounding(q, p, h, v, half);
    CongFrom(w, p * m + rho, p * p, k);
  }

  // ----------------------------------------------------------- modulus switch

  /** The switched ciphertext meets the certified bound, for every input. */
  lemma ModswitchSound(c0: Poly, c1: Poly, s: Poly, m: Poly, q: int, q': int, p: int, h: int, v: int)
    requires ModswitchBound(q, q', p, h, v).Ok? && p * q > 0 && p * q' > 0
    requires |c0| == |c1| == |s| && L1(s) <= h
    requires WithinError(Affine(c0, c1, s), m, q, p, v)
    ensures WithinError(Affine(ScaleRound(c0, q, q'), ScaleRound(c1, q, q'), s), m, q', p, ModswitchBound(q, q', p, h, v).value)
  {
    var phase, switched := Affine(c0, c1, s), Affine(ScaleRound(c0, q, q'), ScaleRound(c1, q, q'), s);
    var residual := SwitchResidual(c0, c1, s, q, q');
    ResidualNorm(c0, c1, s, q, q', h, (h + 1) * (q - 1));
    forall j | 0 <= j < |s|
      ensures Abs(Centered(p * switched[j] - q' * m[j], p * q')) <= ModswitchBound(q, q', p, h, v).value
    {
      SwitchCoefficient(c0, c1, s, q, q', j);
      ModswitchEach(phase, m, switched, residual, q, q', p, h, v, j);
    }
  }

  lemma ModswitchEach(phase: Poly, m: Poly, w: Poly, r: Poly, q: int, q': int, p: int, h: int, v: int, j: nat)
    requires ModswitchBound(q, q', p, h, v).Ok? && p * q > 0 && p * q' > 0
    requires j < |phase| == |w| == |r| && WithinError(phase, m, q, p, v)
    requires q' * phase[j] == q * w[j] + r[j] && HalfBounded(r, (h + 1) * (q - 1))
    ensures Abs(Centered(p * w[j] - q' * m[j], p * q')) <= ModswitchBound(q, q', p, h, v).value
  {
    ModswitchAt(phase[j], m[j], w[j], r[j], q, q', p, h, v);
  }

  lemma ModswitchAt(phase: int, m: int, w: int, r: int, q: int, q': int, p: int, h: int, v: int)
    requires ModswitchBound(q, q', p, h, v).Ok? && p * q > 0 && p * q' > 0
    requires q' * phase == q * w + r && 2 * Abs(r) <= (h + 1) * (q - 1)
    requires Abs(Centered(p * phase - q * m, p * q)) <= v
    ensures Abs(Centered(p * w - q' * m, p * q')) <= ModswitchBound(q, q', p, h, v).value
  {
    var k := ErrorWitness(phase, m, q, p);
    ModswitchCoefficient(phase, m, w, r, Centered(p * phase - q * m, p * q), k, q, q', p, h, v);
  }

  lemma ModswitchCoefficient(phase: int, m: int, w: int, r: int, e: int, k: int, q: int, q': int, p: int, h: int, v: int)
    requires ModswitchBound(q, q', p, h, v).Ok? && p * q' > 0
    requires q' * phase == q * w + r && p * phase == q * m + e + (p * q) * k
    requires Abs(e) <= v && 2 * Abs(r) <= (h + 1) * (q - 1)
    ensures Abs(Centered(p * w - q' * m, p * q')) <= ModswitchBound(q, q', p, h, v).value
  {
    var u := p * w - q' * m - (p * q') * k;
    CongFrom(p * w - q' * m, u, p * q', k);
    CenteredLeast(p * w - q' * m, u, p * q');
    assert q * u == q' * e - p * r by {
      ModswitchIdentity(phase, m, w, r, e, k, q, q', p);
    }
    AbsMulBound(q', e, q', v);
    HalfMulBound(p, r, (h + 1) * (q - 1));
    FloorBound(q, u, q' * e - p * r, 2 * (q' * v) + p * ((h + 1) * (q - 1)));
  }

  lemma ModswitchIdentity(phase: int, m: int, w: int, r: int, e: int, k: int, q: int, q': int, p: int)
    requires q' * phase == q * w + r && p * phase == q * m + e + (p * q) * k
    ensures q * (p * w - q' * m - (p * q') * k) == q' * e - p * r
  {
    DistributeSub(q, p * w - q' * m, (p * q') * k);
    DistributeSub(q, p * w, q' * m);
    Exchange(q, p, w);
    Exchange(q, q', m);
    Distribute(p, q * w, r);
    Exchange(p, q', phase);
    Distribute(q', q * m + e, (p * q) * k);
    Distribute(q', q * m, e);
    Assoc(q', p * q, k);
    Assoc(q, p * q', k);
    Exchange(q', p, q);
    Exchange(q, p, q');
  }

  // ------------------------------------------------------------- sparse route

  /** A key switch that perturbs the phase by at most k costs p*k. */
  lemma KeySwitchSound(phase: Poly, switched: Poly, delta: Poly, m: Poly, q: int, p: int, v: int, k: int)
    requires q > 0 && p > 0 && p * q > 0 && k >= 0 && |switched| == |delta| == |phase|
    requires WithinError(phase, m, q, p, v) && Bounded(delta, k)
    requires CongPoly(switched, Add(phase, delta), q)
    ensures WithinError(switched, m, q, p, v + p * k)
  {
    forall j | 0 <= j < |phase|
      ensures Abs(Centered(p * switched[j] - q * m[j], p * q)) <= v + p * k
    {
      var x := p * phase[j] - q * m[j];
      CenteredRange(x, p * q);
      CongScaleModulus(p, switched[j], phase[j] + delta[j], q);
      Distribute(p, phase[j], delta[j]);
      CongSub(p * switched[j], p * phase[j] + p * delta[j], q * m[j], q * m[j], p * q);
      CongAdd(x, Centered(x, p * q), p * delta[j], p * delta[j], p * q);
      AbsMulBound(p, delta[j], p, k);
      CenteredLeast(p * switched[j] - q * m[j], Centered(x, p * q) + p * delta[j], p * q);
    }
  }

  /**
   The composed route: switch the modulus under the dense secret, switch the key
   with phase perturbation at most k, expand under the sparse secret. The
   residual is within the radius the route reports.
   */
  lemma SparseRouteSound(c0: Poly, c1: Poly, dense: Poly, d0: Poly, d1: Poly, sparse: Poly, delta: Poly, m: Poly,
                         q: int, q': int, p: int, hd: int, hs: int, v: int, k: int, j: nat) returns (rho: int)
    requires SparseRoute(q, q', p, hd, hs, v, k).Ok? && p * q > 0 && p * q' > 0 && p * p > 0
    requires |c0| == |c1| == |dense| == |d0| == |d1| == |sparse| == |delta| && j < |dense|
    requires L1(dense) <= hd && L1(sparse) <= hs && Bounded(delta, k)
    requires WithinError(Affine(c0, c1, dense), m, q, p, v)
    requires CongPoly(Affine(d0, d1, sparse), Add(Affine(ScaleRound(c0, q, q'), ScaleRound(c1, q, q'), dense), delta), q')
    ensures Abs(rho) <= SparseRoute(q, q', p, hd, hs, v, k).value.2
    ensures Cong(Affine(ScaleRound(d0, q', p * p), ScaleRound(d1, q', p * p), sparse)[j], p * m[j] + rho, p * p)
  {
    ModswitchSound(c0, c1, dense, m, q, q', p, hd, v);
    var before := ModswitchBound(q, q', p, hd, v).value;
    KeySwitchSound(Affine(ScaleRound(c0, q, q'), ScaleRound(c1, q, q'), dense), Affine(d0, d1, sparse), delta, m, q', p, before, k);
    rho := ExpansionSound(d0, d1, sparse, m, q', p, hs, before + p * k, j);
  }

  // --------------------------------------------------------- outer encryption

  function MaxAbs(a: Poly): (r: nat)
    ensures Bounded(a, r)
  {
    if |a| == 0 then 0
    else
      var rest := MaxAbs(a[1..]);
      assert forall i :: 0 < i < |a| ==> a[i] == a[1..][i - 1];
      Max(Abs(a[0]), rest)
  }

  /** The bound on evaluating a0 + a1*Enc(s) under the outer key. */
  function OuterExpansionBound(q: int, plain: int, a0: Poly, a1: Poly, h: int, beta: int): Result<int>
  {
    if q < 3 || q % 2 == 0 || plain < 3 || plain % 2 == 0 || q <= plain || |a0| == 0 || |a0| != |a1| || h < 0 || beta < 0
       || (exists i :: 0 <= i < |a0| && 2 * Abs(a0[i]) >= plain) || (exists i :: 0 <= i < |a1| && 2 * Abs(a1[i]) >= plain) then Err
    else Ok(plain * (L1(a1) * beta) + q % plain * (MaxAbs(a0) + MaxAbs(a1) * h))
  }

  /**
   The outer bound is sound: with an encapsulated key of phase
   floor(q/P)*s + e, |e| <= beta, the phase of the combination is floor(q/P)*w +
   a1*e modulo q for w = a0 + a1*s, and its scaled error against w is within
   the bound.
   */
  lemma OuterExpansionSound(a0: Poly, a1: Poly, s: Poly, key: Poly, e: Poly, phase: Poly, q: int, plain: int, h: int, beta: int)
    requires OuterExpansionBound(q, plain, a0, a1, h, beta).Ok? && plain * q > 0
    requires |a0| == |s| == |key| == |e| == |phase| && L1(s) <= h && Bounded(e, beta)
    requires CongPoly(key, Add(Scale(q / plain, s), e), q)
    requires CongPoly(phase, Add(Scale(q / plain, a0), Mul(a1, key)), q)
    ensures WithinError(phase, Affine(a0, a1, s), q, plain, OuterExpansionBound(q, plain, a0, a1, h, beta).value)
  {
    var w, d := Affine(a0, a1, s), q / plain;
    var noise := Mul(a1, e);
    OuterPhase(a0, a1, s, key, e, phase, q, d);
    MulBounded(a1, e, beta);
    PlaintextNorm(a0, a1, s, h);
    OuterWithin(phase, w, noise, q, plain, d, L1(a1) * beta, MaxAbs(a0) + MaxAbs(a1) * h);
  }

  lemma OuterWithin(phase: Poly, w: Poly, noise: Poly, q: int, plain: int, d: int, y: int, z: int)
    requires q > 0 && plain > 0 && plain * q > 0 && d == q / plain && |phase| == |w| == |noise|
    requires CongPoly(phase, Add(Scale(d, w), noise), q) && Bounded(noise, y) && Bounded(w, z)
    ensures WithinError(phase, w, q, plain, plain * y + q % plain * z)
  {
    forall j | 0 <= j < |w|
      ensures Abs(Centered(plain * phase[j] - q * w[j], plain * q)) <= plain * y + q % plain * z
    {
      OuterEach(phase, w, noise, q, plain, d, y, z, j);
    }
  }

  lemma OuterEach(phase: Poly, w: Poly, noise: Poly, q: int, plain: int, d: int, y: int, z: int, j: nat)
    requires q > 0 && plain > 0 && plain * q > 0 && d == q / plain && j < |phase| == |w| == |noise|
    requires CongPoly(phase, Add(Scale(d, w), noise), q) && Bounded(noise, y) && Bounded(w, z)
    ensures Abs(Centered(plain * phase[j] - q * w[j], plain * q)) <= plain * y + q % plain * z
  {
    assert Cong(phase[j], Add(Scale(d, w), noise)[j], q);
    OuterCoefficient(phase[j], w[j], noise[j], q, plain, y, z);
  }

  lemma OuterPhase(a0: Poly, a1: Poly, s: Poly, key: Poly, e: Poly, phase: Poly, q: int, d: int)
    requires q > 0 && |a0| == |a1| == |s| == |key| == |e| == |phase|
    requires CongPoly(key, Add(Scale(d, s), e), q) && CongPoly(phase, Add(Scale(d, a0), Mul(a1, key)), q)
    ensures CongPoly(phase, Add(Scale(d, Affine(a0, a1, s)), Mul(a1, e)), q)
  {
    CongPolyMul(a1, a1, key, Add(Scale(d, s), e), q);
    CongPolyAdd(Scale(d, a0), Scale(d, a0), Mul(a1, key), Mul(a1, Add(Scale(d, s), e)), q);
    MulAddRight(a1, Scale(d, s), e);
    MulScaleRight(a1, d, s);
    ScaleAdd(d, a0, Mul(a1, s));
    AddAssoc(Scale(d, a0), Scale(d, Mul(a1, s)), Mul(a1, e));
    assert forall i :: 0 <= i < |phase| ==> Cong(phase[i], Add(Scale(d, a0), Mul(a1, key))[i], q);
  }

  lemma PlaintextNorm(a0: Poly, a1: Poly, s: Poly, h: int)
    requires |a0| == |a1| == |s| && L1(s) <= h
    ensures Bounded(Affine(a0, a1, s), MaxAbs(a0) + MaxAbs(a1) * h)
  {
    MulComm(a1, s);
    MulBounded(s, a1, MaxAbs(a1));
    MulMono(L1(s), h, MaxAbs(a1));
    AddBounded(a0, Mul(a1, s), MaxAbs(a0), L1(s) * MaxAbs(a1));
    assert h * MaxAbs(a1) == MaxAbs(a1) * h;
    assert forall i :: 0 <= i < |s| ==> Abs(Affine(a0, a1, s)[i]) <= MaxAbs(a0) + L1(s) * MaxAbs(a1);
  }

  lemma OuterCoefficient(phase: int, w: int, noise: int, q: int, plain: int, y: int, z: int)
    requires q > 0 && plain > 0 && plain * q > 0
    requires Cong(phase, q / plain * w + noise, q) && Abs(noise) <= y && Abs(w) <= z
    ensures Abs(Centered(plain * phase - q * w, plain * q)) <= plain * y + q % plain * z
  {
    var d, r := q / plain, q % plain;
    CongScaleModulus(plain, phase, d * w + noise, q);
    CongSub(plain * phase, plain * (d * w + noise), q * w, q * w, plain * q);
    OuterIdentity(q, plain, d, r, w, noise);
    AbsMulBound(plain, noise, plain, y);
    AbsMulBound(r, w, r, z);
    CenteredLeast(plain * phase - q * w, plain * noise - r * w, plain * q);
  }

  lemma OuterIdentity(q: int, plain: int, d: int, r: int, w: int, noise: int)
    requires q == plain * d + r
    ensures plain * (d * w + noise) - q * w == plain * noise - r * w
  {
    Distribute(plain, d * w, noise);
    Assoc(plain, d, w);
    Distribute(w, plain * d, r);
  }
}
