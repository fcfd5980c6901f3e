/**
 Integer polynomials as coefficient lists, constant first: evaluation, formal
 derivative, product and synthetic division, with the modular loops that the
 scripts run proved to compute them up to congruence.
 */
module Polynomials {
  import opened Arith
  import opened Vectors

  function EvalRule(f: Poly, x: int): int
  {
    if |f| == 0 then 0 else f[0] + x * EvalRule(f[1..], x)
  }

  function SlopeRule(f: Poly, x: int): int
  {
    if |f| == 0 then 0 else EvalRule(f[1..], x) + x * SlopeRule(f[1..], x)
  }

  ghost predicate IsEval(f: Poly, x: int, v: int)
  {
    forall t {:trigger Unfold(t)} :: Unfold(t) ==> v == EvalRule(f, x)
  }

  ghost predicate IsSlope(f: Poly, x: int, v: int)
  {
    forall t {:trigger Unfold(t)} :: Unfold(t) ==> v == SlopeRule(f, x)
  }

  /** The value f(x), by Horner's rule; unfolded by EvalSplit. */
  ghost function Eval(f: Poly, x: int): int
  {
    assert IsEval(f, x, EvalRule(f, x));
    var v :| IsEval(f, x, v);
    v
  }

  /** The value of the formal derivative, by Horner's rule on pairs; unfolded by EvalSplit. */
  ghost function Slope(f: Poly, x: int): int
  {
    assert IsSlope(f, x, SlopeRule(f, x));
    var v :| IsSlope(f, x, v);
    v
  }

  lemma EvalIsHorner(f: Poly, x: int)
    ensures Eval(f, x) == EvalRule(f, x) && Slope(f, x) == SlopeRule(f, x)
  {
    assert Unfold(0);
  }

  lemma EvalNil(x: int)
    ensures Eval([], x) == 0 && Slope([], x) == 0
  {
    EvalIsHorner([], x);
  }

  lemma EvalCons(c: int, t: Poly, x: int)
    ensures Eval([c] + t, x) == c + x * Eval(t, x)
    ensures Slope([c] + t, x) == Eval(t, x) + x * Slope(t, x)
  {
    EvalIsHorner([c] + t, x);
    EvalIsHorner(t, x);
    assert ([c] + t)[1..] == t;
  }

  /** The two cases of Eval and Slope on the shape of the polynomial. */
  lemma EvalSplit(f: Poly, x: int)
    ensures |f| == 0 ==> Eval(f, x) == 0 && Slope(f, x) == 0
    ensures |f| > 0 ==> Eval(f, x) == f[0] + x * Eval(f[1..], x)
    ensures |f| > 0 ==> Slope(f, x) == Eval(f[1..], x) + x * Slope(f[1..], x)
  {
    if |f| == 0 {
      EvalNil(x);
    } else {
      assert f == [f[0]] + f[1..];
      EvalCons(f[0], f[1..], x);
    }
  }

  // ------------------------------------------------------------ linear structure

  lemma {:induction false} EvalAdd(f: Poly, g: Poly, x: int)
    requires |f| == |g|
    ensures Eval(Add(f, g), x) == Eval(f, x) + Eval(g, x)
  {
    EvalSplit(f, x);
    EvalSplit(g, x);
    EvalSplit(Add(f, g), x);
    if |f| > 0 {
      EvalAdd(f[1..], g[1..], x);
      assert Add(f, g)[1..] == Add(f[1..], g[1..]);
      Distribute(x, Eval(f[1..], x), Eval(g[1..], x));
    }
  }

  lemma {:induction false} EvalScale(c: int, f: Poly, x: int)
    ensures Eval(Scale(c, f), x) == c * Eval(f, x)
  {
    EvalSplit(f, x);
    EvalSplit(Scale(c, f), x);
    if |f| > 0 {
      EvalScale(c, f[1..], x);
      assert Scale(c, f)[1..] == Scale(c, f[1..]);
      Distribute(c, f[0], x * Eval(f[1..], x));
      Exchange(c, x, Eval(f[1..], x));
    }
  }

  lemma {:induction false} SlopeAdd(f: Poly, g: Poly, x: int)
    requires |f| == |g|
    ensures Slope(Add(f, g), x) == Slope(f, x) + Slope(g, x)
  {
    EvalSplit(f, x);
    EvalSplit(g, x);
    EvalSplit(Add(f, g), x);
    if |f| > 0 {
      SlopeAdd(f[1..], g[1..], x);
      EvalAdd(f[1..], g[1..], x);
      assert Add(f, g)[1..] == Add(f[1..], g[1..]);
      Distribute(x, Slope(f[1..], x), Slope(g[1..], x));
    }
  }

  lemma {:induction false} SlopeScale(c: int, f: Poly, x: int)
    ensures Slope(Scale(c, f), x) == c * Slope(f, x)
  {
    EvalSplit(f, x);
    EvalSplit(Scale(c, f), x);
    if |f| > 0 {
      SlopeScale(c, f[1..], x);
      EvalScale(c, f[1..], x);
      assert Scale(c, f)[1..] == Scale(c, f[1..]);
      Distribute(c, Eval(f[1..], x), x * Slope(f[1..], x));
      Exchange(c, x, Slope(f[1..], x));
    }
  }

  lemma EvalCong(f: Poly, g: Poly, x: int, m: int)
    requires m > 0 && CongPoly(f, g, m)
    ensures Cong(Eval(f, x), Eval(g, x), m) && Cong(Slope(f, x), Slope(g, x), m)
  {
    var k := CongPolyWitness(f, g, m);
    EvalAdd(g, Scale(m, k), x);
    EvalScale(m, k, x);
    SlopeAdd(g, Scale(m, k), x);
    SlopeScale(m, k, x);
    CongFrom(Eval(f, x), Eval(g, x), m, Eval(k, x));
    CongFrom(Slope(f, x), Slope(g, x), m, Slope(k, x));
  }

  lemma {:induction false} EvalZero(n: nat, x: int)
    ensures Eval(Zero(n), x) == 0 && Slope(Zero(n), x) == 0
  {
    EvalSplit(Zero(n), x);
    if n > 0 {
      EvalZero(n - 1, x);
      assert Zero(n)[1..] == Zero(n - 1);
    }
  }

  lemma {:induction false} EvalAppend(f: Poly, g: Poly, x: int)
    ensures Eval(f + g, x) == Eval(f, x) + Pow(x, |f|) * Eval(g, x)
  {
    EvalSplit(f, x);
    EvalSplit(f + g, x);
    if |f| == 0 {
      assert f + g == g;
    } else {
      var t := f[1..];
      EvalAppend(t, g, x);
      assert (f + g)[1..] == t + g;
      Distribute(x, Eval(t, x), Pow(x, |t|) * Eval(g, x));
      Assoc(x, Pow(x, |t|), Eval(g, x));
    }
  }

  lemma EvalSingle(c: int, x: int)
    ensures Eval([c], x) == c && Slope([c], x) == 0
  {
    EvalCons(c, [], x);
    EvalNil(x);
    assert [c] + [] == [c];
  }

  /** The polynomial X - r. */
  lemma EvalLinear(r: int, x: int)
    ensures Eval([-r, 1], x) == x - r && Slope([-r, 1], x) == 1
  {
    EvalSplit([-r, 1], x);
    assert [-r, 1][1..] == [1];
    EvalSingle(1, x);
  }

  // ------------------------------------------------------------------- Taylor

  /** F(x + h) = F(x) + h*F'(x) + h*h*R. */
  lemma {:induction false} Taylor(f: Poly, x: int, h: int) returns (r: int)
    ensures Eval(f, x + h) == Eval(f, x) + h * Slope(f, x) + (h * h) * r
  {
    EvalSplit(f, x);
    EvalSplit(f, x + h);
    if |f| == 0 {
      r := 0;
    } else {
      var t := f[1..];
      var q := Taylor(t, x, h);
      r := Slope(t, x) + x * q + h * q;
      TaylorStep(x, h, Eval(t, x), Slope(t, x), q);
    }
  }

  lemma TaylorStep(x: int, h: int, e: int, s: int, q: int)
    ensures (x + h) * (e + h * s + (h * h) * q) == x * e + h * (e + x * s) + (h * h) * (s + x * q + h * q)
  {
    var hh := h * h;
    Distribute(e + h * s + hh * q, x, h);
    Distribute(x, e + h * s, hh * q);
    Distribute(x, e, h * s);
    Distribute(h, e + h * s, hh * q);
    Distribute(h, e, h * s);
    Distribute(h, e, x * s);
    Exchange(x, h, s);
    Assoc(h, h, s);
    Exchange(x, hh, q);
    Exchange(h, hh, q);
    Distribute(hh, s + x * q, h * q);
    Distribute(hh, s, x * q);
  }

  /** Evaluation respects congruence of the point. */
  lemma EvalPointCong(f: Poly, x: int, y: int, m: int)
    requires m > 0 && Cong(x, y, m)
    ensures Cong(Eval(f, x), Eval(f, y), m)
  {
    var k := CongWitness(x, y, m);
    var h := m * k;
    var r := Taylor(f, y, h);
    Assoc(m, k, Slope(f, y));
    Assoc(m, k, h);
    Assoc(m, k * h, r);
    Distribute(m, k * Slope(f, y), k * h * r);
    CongFrom(Eval(f, x), Eval(f, y), m, k * Slope(f, y) + k * h * r);
  }

  // --------------------------------------------------------------- derivative

  function DerivativeFrom(f: Poly, k: int): (r: Poly)
    ensures |r| == |f|
  {
    seq(|f|, i requires 0 <= i < |f| => (k + i) * f[i])
  }

  /** [1*f1, 2*f2, ...]: empty for constants. */
  function Derivative(f: Poly): Poly
  {
    if |f| == 0 then [] else DerivativeFrom(f[1..], 1)
  }

  lemma {:induction false} EvalDerivativeFrom(f: Poly, k: int, x: int)
    ensures Eval(DerivativeFrom(f, k), x) == k * Eval(f, x) + x * Slope(f, x)
  {
    EvalSplit(f, x);
    EvalSplit(DerivativeFrom(f, k), x);
    if |f| > 0 {
      var t := f[1..];
      EvalDerivativeFrom(t, k + 1, x);
      assert DerivativeFrom(f, k)[1..] == DerivativeFrom(t, k + 1);
      var e, s := Eval(t, x), Slope(t, x);
      Distribute(e, k, 1);
      Distribute(x, k * e + e, x * s);
      Distribute(x, k * e, e);
      Distribute(x, e, x * s);
      Distribute(k, f[0], x * e);
      Exchange(k, x, e);
    }
  }

  /** The formal derivative evaluates to the slope. */
  lemma DerivativeIsSlope(f: Poly, x: int)
    ensures Eval(Derivative(f), x) == Slope(f, x)
  {
    EvalSplit(f, x);
    if |f| > 0 {
      EvalDerivativeFrom(f[1..], 1, x);
    } else {
      EvalNil(x);
    }
  }

  // ------------------------------------------------------------------ product

  /** Row i of the product: a[i] * X^i * b, padded to the full length. */
  function Row(a: Poly, i: nat, b: Poly): (r: Poly)
    requires i < |a|
    ensures |r| == |a| + |b| - 1
  {
    Zero(i) + Scale(a[i], b) + Zero(|a| - 1 - i)
  }

  function PartialProduct(a: Poly, b: Poly, i: nat): (r: Poly)
    requires |a| > 0 && i <= |a|
    ensures |r| == |a| + |b| - 1
  {
    if i == 0 then Zero(|a| + |b| - 1) else Add(PartialProduct(a, b, i - 1), Row(a, i - 1, b))
  }

  function Product(a: Poly, b: Poly): (r: Poly)
    requires |a| > 0
    ensures |r| == |a| + |b| - 1
  {
    PartialProduct(a, b, |a|)
  }

  lemma EvalRow(a: Poly, i: nat, b: Poly, x: int)
    requires i < |a|
    ensures Eval(Row(a, i, b), x) == Pow(x, i) * (a[i] * Eval(b, x))
  {
    var s := Scale(a[i], b);
    EvalAppend(Zero(i) + s, Zero(|a| - 1 - i), x);
    EvalAppend(Zero(i), s, x);
    EvalZero(i, x);
    EvalZero(|a| - 1 - i, x);
    EvalScale(a[i], b, x);
  }

  lemma {:induction false} EvalPartial(a: Poly, b: Poly, i: nat, x: int)
    requires |a| > 0 && i <= |a|
    ensures Eval(PartialProduct(a, b, i), x) == Eval(a[..i], x) * Eval(b, x)
  {
    if i == 0 {
      EvalZero(|a| + |b| - 1, x);
      EvalNil(x);
    } else {
      EvalPartial(a, b, i - 1, x);
      EvalAdd(PartialProduct(a, b, i - 1), Row(a, i - 1, b), x);
      EvalRow(a, i - 1, b, x);
      assert a[..i] == a[..i - 1] + [a[i - 1]];
      EvalAppend(a[..i - 1], [a[i - 1]], x);
      EvalSingle(a[i - 1], x);
      Assoc(Pow(x, i - 1), a[i - 1], Eval(b, x));
      Distribute(Eval(b, x), Eval(a[..i - 1], x), Pow(x, i - 1) * a[i - 1]);
    }
  }

  lemma EvalProduct(a: Poly, b: Poly, x: int)
    requires |a| > 0
    ensures Eval(Product(a, b), x) == Eval(a, x) * Eval(b, x)
  {
    EvalPartial(a, b, |a|, x);
    assert a[..|a|] == a;
  }

  /** The product rule, read off the Taylor expansions of the three polynomials. */
  lemma SlopeProduct(a: Poly, b: Poly, x: int)
    requires |a| > 0
    ensures Slope(Product(a, b), x) == Slope(a, x) * Eval(b, x) + Eval(a, x) * Slope(b, x)
  {
    var p, e, f, y, z := Slope(Product(a, b), x), Eval(a, x), Eval(b, x), Slope(a, x), Slope(b, x);
    var h := Spread(p, y, f, e, z);
    var u, v, r := ProductTaylor(a, b, x, h);
    OrderZero(e, y, u, f, z, v, p, r, h);
  }

  function Spread(p: int, y: int, f: int, e: int, z: int): int
  {
    Abs(p - (y * f + e * z)) + 1
  }

  lemma OrderZero(e: int, s: int, u: int, f: int, t: int, v: int, p: int, r: int, h: int)
    requires h == Spread(p, s, f, e, t)
    requires (e + h * s + (h * h) * u) * (f + h * t + (h * h) * v) == e * f + h * p + (h * h) * r
    ensures p == s * f + e * t
  {
    var k := FirstOrder(e, s, u, f, t, v, p, r, h);
    SmallMultiple(h, k);
  }

  lemma ProductTaylor(a: Poly, b: Poly, x: int, h: int) returns (u: int, v: int, r: int)
    requires |a| > 0
    ensures (Eval(a, x) + h * Slope(a, x) + (h * h) * u) * (Eval(b, x) + h * Slope(b, x) + (h * h) * v)
         == Eval(a, x) * Eval(b, x) + h * Slope(Product(a, b), x) + (h * h) * r
  {
    r := Taylor(Product(a, b), x, h);
    u := Taylor(a, x, h);
    v := Taylor(b, x, h);
    EvalProduct(a, b, x);
    EvalProduct(a, b, x + h);
  }

  lemma FirstOrder(e: int, s: int, u: int, f: int, t: int, v: int, p: int, r: int, h: int) returns (k: int)
    requires h > 0
    requires (e + h * s + (h * h) * u) * (f + h * t + (h * h) * v) == e * f + h * p + (h * h) * r
    ensures p - (s * f + e * t) == h * k
  {
    var x, y := s + h * u, t + h * v;
    assert e + h * s + (h * h) * u == e + h * x && f + h * t + (h * h) * v == f + h * y by {
      Assoc(h, h, u);
      Assoc(h, h, v);
      Distribute(h, s, h * u);
      Distribute(h, t, h * v);
    }
    k := e * v + u * f + x * y - r;
    assert (e + h * x) * (f + h * y) == e * f + h * (e * y + x * f + h * (x * y)) by {
      ExpandPair(e, x, f, y, h);
    }
    assert e * y + x * f + h * (x * y) == p + h * r by {
      Assoc(h, h, r);
      Distribute(h, p, h * r);
      CancelEqual(h, e * y + x * f + h * (x * y), p + h * r);
    }
    assert e * y == e * t + h * (e * v) by {
      Distribute(e, t, h * v);
      Exchange(e, h, v);
    }
    assert x * f == s * f + h * (u * f) by {
      Distribute(f, s, h * u);
      Assoc(h, u, f);
    }
    CollectOrder(h, e * v, u * f, x * y, r);
  }

  lemma ExpandPair(e: int, x: int, f: int, y: int, h: int)
    ensures (e + h * x) * (f + h * y) == e * f + h * (e * y + x * f + h * (x * y))
  {
    Distribute(f + h * y, e, h * x);
    Distribute(e, f, h * y);
    Distribute(h * x, f, h * y);
    Exchange(e, h, y);
    Assoc(h, x, f);
    Assoc(h, x, h * y);
    Exchange(x, h, y);
    Distribute(h, e * y + x * f, h * (x * y));
    Distribute(h, e * y, x * f);
  }

  lemma CollectOrder(h: int, a: int, b: int, c: int, r: int)
    ensures h * (a + b + c - r) == h * a + h * b + h * c - h * r
  {
    DistributeSub(h, a + b + c, r);
    Distribute(h, a + b, c);
    Distribute(h, a, b);
  }

  // --------------------------------------------------------- synthetic division

  /** Coefficient i of the quotient by X - r is the value at r of the tail above i. */
  ghost function Quotient(g: Poly, r: int): (q: Poly)
    ensures |q| == if |g| == 0 then 0 else |g| - 1
  {
    if |g| == 0 then [] else seq(|g| - 1, i requires 0 <= i < |g| - 1 => Eval(g[i + 1..], r))
  }

  lemma QuotientCons(g: Poly, r: int)
    requires |g| >= 2
    ensures Quotient(g, r) == [Eval(g[1..], r)] + Quotient(g[1..], r)
  {
    forall i | 0 <= i < |g| - 1
      ensures Quotient(g, r)[i] == ([Eval(g[1..], r)] + Quotient(g[1..], r))[i]
    {
      if i > 0 {
        assert g[1..][i..] == g[i + 1..];
      }
    }
  }

  lemma ShortDivision(g: Poly, r: int, x: int)
    requires |g| <= 1
    ensures Eval(g, x) == Eval(g, r) && Quotient(g, r) == []
    ensures Eval(Quotient(g, r), x) == 0 && Eval(Quotient(g, r), r) == Slope(g, r)
  {
    EvalSplit(g, x);
    EvalSplit(g, r);
    assert Quotient(g, r) == [];
    EvalNil(x);
    EvalNil(r);
    assert |g| == 1 ==> g[1..] == [];
  }

  /** g(x) - g(r) = (x - r)*q(x), and q(r) = g'(r). */
  lemma {:induction false} SyntheticDivision(g: Poly, r: int, x: int)
    ensures Eval(g, x) - Eval(g, r) == (x - r) * Eval(Quotient(g, r), x)
    ensures Eval(Quotient(g, r), r) == Slope(g, r)
  {
    EvalSplit(g, x);
    EvalSplit(g, r);
    if |g| <= 1 {
      ShortDivision(g, r, x);
    } else {
      var t, e := g[1..], Eval(g[1..], r);
      SyntheticDivision(t, r, x);
      QuotientCons(g, r);
      EvalCons(e, Quotient(t, r), x);
      EvalCons(e, Quotient(t, r), r);
      DivisionStep(x, r, Eval(t, x), e, Eval(Quotient(t, r), x));
    }
  }

  lemma DivisionStep(x: int, r: int, tx: int, e: int, q: int)
    requires tx - e == (x - r) * q
    ensures x * tx - r * e == (x - r) * (e + x * q)
  {
    Distribute(x - r, e, x * q);
    Exchange(x - r, x, q);
    DistributeSub(x, tx, e);
    DistributeSub(e, x, r);
  }

  // -------------------------------------------------------------- modular loops

  predicate Canonical(f: Poly, m: int)
  {
    forall i :: 0 <= i < |f| ==> 0 <= f[i] < m
  }

  /** Evaluation modulo m, as the scripts state it. */
  function Evaluate(f: Poly, x: int, m: int): int
    requires m > 0
  {
    EvalRule(f, x) % m
  }

  lemma EvaluateIsEval(f: Poly, x: int, m: int)
    requires m > 0
    ensures Evaluate(f, x, m) == Eval(f, x) % m
  {
    EvalIsHorner(f, x);
  }

  /** Horner's rule over the reversed coefficients, reduced at every step. */
  method EvaluateLoop(coefficients: Poly, x: int, m: int) returns (out: int)
    requires m > 0
    ensures out == Evaluate(coefficients, x, m)
  {
    out := 0;
    var i := |coefficients|;
    DivModUnique(0, m, 0, 0);
    EvalNil(x);
    assert coefficients[i..] == [];
    while i > 0
      invariant 0 <= i <= |coefficients|
      invariant out == Eval(coefficients[i..], x) % m
    {
      i := i - 1;
      CongMod(out, Eval(coefficients[i + 1..], x), m);
      ModMod(Eval(coefficients[i + 1..], x), m);
      HornerStep(coefficients, i, x, out, m);
      CongMod(out * x + coefficients[i], Eval(coefficients[i..], x), m);
      out := (out * x + coefficients[i]) % m;
    }
    assert coefficients[0..] == coefficients;
    EvaluateIsEval(coefficients, x, m);
  }

  lemma HornerStep(f: Poly, i: nat, x: int, value: int, m: int)
    requires m > 0 && i < |f| && Cong(value, Eval(f[i + 1..], x), m)
    ensures Cong(value * x + f[i], Eval(f[i..], x), m)
  {
    assert f[i..][1..] == f[i + 1..];
    EvalSplit(f[i..], x);
    CongScale(x, value, Eval(f[i + 1..], x), m);
    CongAdd(x * value, x * Eval(f[i + 1..], x), f[i], f[i], m);
  }

  method MultiplyRow(start: Poly, a: Poly, i: nat, b: Poly, m: int) returns (out: Poly)
    requires m > 0 && i < |a| && |start| == |a| + |b| - 1 && Canonical(start, m)
    ensures CongPoly(out, Add(start, Row(a, i, b)), m) && Canonical(out, m)
  {
    out := start;
    ghost var row := Row(a, i, b);
    for j := 0 to |b|
      invariant |out| == |start| && Canonical(out, m)
      invariant forall d :: 0 <= d < |out| && d < i + j ==> Cong(out[d], Add(start, row)[d], m)
      invariant forall d :: i + j <= d < |out| ==> out[d] == start[d]
    {
      assert row[i + j] == a[i] * b[j];
      ModCong(out[i + j] + a[i] * b[j], m);
      out := out[i + j := (out[i + j] + a[i] * b[j]) % m];
    }
  }

  /** The double loop computes the product, reduced coefficientwise. */
  method Multiply(a: Poly, b: Poly, m: int) returns (out: Poly)
    requires m > 0 && |a| > 0 && |b| > 0
    ensures CongPoly(out, Product(a, b), m) && Canonical(out, m)
  {
    out := Zero(|a| + |b| - 1);
    for i := 0 to |a|
      invariant CongPoly(out, PartialProduct(a, b, i), m) && Canonical(out, m)
    {
      ghost var before := out;
      out := MultiplyRow(out, a, i, b, m);
      CongPolyAdd(before, PartialProduct(a, b, i), Row(a, i, b), Row(a, i, b), m);
    }
  }

  /** Synthetic division modulo p, from the top coefficient down. */
  method Divide(g: Poly, root: int, p: int) returns (quotient: Poly)
    requires p > 0 && |g| >= 2
    ensures CongPoly(quotient, Quotient(g, root), p) && Canonical(quotient, p)
    ensures Cong(g[0] + root * quotient[0], Eval(g, root), p)
  {
    var n := |g| - 1;
    quotient := Zero(n);
    ModCong(g[n], p);
    assert g[n..] == [g[n]];
    EvalSingle(g[n], root);
    quotient := quotient[n - 1 := g[n] % p];
    var i := n - 1;
    while i > 0
      invariant 0 <= i <= n - 1 && |quotient| == n && Canonical(quotient, p)
      invariant forall k :: i <= k < n ==> Cong(quotient[k], Eval(g[k + 1..], root), p)
    {
      i := i - 1;
      HornerStep(g, i + 1, root, quotient[i + 1], p);
      ModCong(g[i + 1] + root * quotient[i + 1], p);
      quotient := quotient[i := (g[i + 1] + root * quotient[i + 1]) % p];
    }
    HornerStep(g, 0, root, quotient[0], p);
    assert g[0..] == g;
  }
}
