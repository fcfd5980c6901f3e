/**
 Integer vectors: coefficient lists with pointwise sum and scaling, their norms,
 and coefficientwise congruence.
 */
module Vectors {
  import opened Arith

  type Poly = seq<int>

  function Zero(n: nat): (r: Poly)
    ensures |r| == n
  {
    seq(n, _ => 0)
  }

  function Add(a: Poly, b: Poly): (r: Poly)
    requires |a| == |b|
    ensures |r| == |a|
  {
    seq(|a|, i requires 0 <= i < |a| => a[i] + b[i])
  }

  function Scale(c: int, a: Poly): (r: Poly)
    ensures |r| == |a|
  {
    seq(|a|, i requires 0 <= i < |a| => c * a[i])
  }

  function Sub(a: Poly, b: Poly): (r: Poly)
    requires |a| == |b|
    ensures |r| == |a|
  {
    Add(a, Scale(-1, b))
  }

  /** The constant c as a ring element. */
  function Const(c: int, n: nat): (r: Poly)
    requires n > 0
    ensures |r| == n
  {
    [c] + Zero(n - 1)
  }

  // ------------------------------------------------------------- vector laws

  lemma AddAssoc(a: Poly, b: Poly, c: Poly)
    requires |a| == |b| == |c|
    ensures Add(Add(a, b), c) == Add(a, Add(b, c))
  {
  }

  lemma AddComm(a: Poly, b: Poly)
    requires |a| == |b|
    ensures Add(a, b) == Add(b, a)
  {
  }

  lemma AddSwap(a: Poly, b: Poly, c: Poly, d: Poly)
    requires |a| == |b| == |c| == |d|
    ensures Add(Add(a, b), Add(c, d)) == Add(Add(a, c), Add(b, d))
  {
  }

  lemma ScaleAdd(c: int, a: Poly, b: Poly)
    requires |a| == |b|
    ensures Scale(c, Add(a, b)) == Add(Scale(c, a), Scale(c, b))
  {
    forall i | 0 <= i < |a|
      ensures Scale(c, Add(a, b))[i] == Add(Scale(c, a), Scale(c, b))[i]
    {
      assert c * (a[i] + b[i]) == c * a[i] + c * b[i];
    }
  }

  lemma ScaleSum(c: int, d: int, a: Poly)
    ensures Scale(c + d, a) == Add(Scale(c, a), Scale(d, a))
  {
    forall i | 0 <= i < |a|
      ensures Scale(c + d, a)[i] == Add(Scale(c, a), Scale(d, a))[i]
    {
      assert (c + d) * a[i] == c * a[i] + d * a[i];
    }
  }

  lemma ScaleScale(c: int, d: int, a: Poly)
    ensures Scale(c, Scale(d, a)) == Scale(c * d, a)
  {
    forall i | 0 <= i < |a|
      ensures Scale(c, Scale(d, a))[i] == Scale(c * d, a)[i]
    {
      assert c * (d * a[i]) == (c * d) * a[i];
    }
  }

  lemma ReadSum(c: Poly, x: Poly, t: int, z: Poly, i: nat)
    requires i < |c| == |x| == |z|
    requires x == Add(c, Scale(t, z))
    ensures x[i] == c[i] + t * z[i]
  {
  }

  // ------------------------------------------------------------------- norms

  /** Every coefficient has magnitude at most m. */
  predicate Bounded(a: Poly, m: int)
  {
    forall i :: 0 <= i < |a| ==> Abs(a[i]) <= m
  }

  /** The l1 norm. */
  function L1(a: Poly): (r: nat)
  {
    if |a| == 0 then 0 else Abs(a[0]) + L1(a[1..])
  }

  predicate Ternary(a: Poly)
  {
    forall i :: 0 <= i < |a| ==> -1 <= a[i] <= 1
  }

  lemma AddBounded(a: Poly, b: Poly, x: int, y: int)
    requires |a| == |b| && Bounded(a, x) && Bounded(b, y)
    ensures Bounded(Add(a, b), x + y)
  {
  }

  lemma ScaleBounded(c: int, a: Poly, x: int)
    requires Bounded(a, x)
    ensures Bounded(Scale(c, a), Abs(c) * x)
  {
    forall i | 0 <= i < |a|
      ensures Abs(Scale(c, a)[i]) <= Abs(c) * x
    {
      AbsMulBound(c, a[i], Abs(c), x);
    }
  }

  lemma {:induction false} L1Bound(a: Poly, x: int)
    requires Bounded(a, x)
    ensures L1(a) <= |a| * x
  {
    if |a| > 0 {
      L1Bound(a[1..], x);
      assert Abs(a[0]) <= x;
      assert |a| * x == (|a| - 1) * x + x;
    }
  }

  /** Twice every coefficient has magnitude at most y: a bound by y/2. */
  predicate HalfBounded(a: Poly, y: int)
  {
    forall i :: 0 <= i < |a| ==> 2 * Abs(a[i]) <= y
  }

  lemma HalfAdd(a: Poly, b: Poly, x: int, y: int)
    requires |a| == |b| && HalfBounded(a, x) && HalfBounded(b, y)
    ensures HalfBounded(Add(a, b), x + y)
  {
  }

  lemma HalfScale(c: int, a: Poly, y: int)
    requires HalfBounded(a, y)
    ensures HalfBounded(Scale(c, a), Abs(c) * y)
  {
    forall i | 0 <= i < |a|
      ensures 2 * Abs(Scale(c, a)[i]) <= Abs(c) * y
    {
      HalfMulBound(c, a[i], y);
    }
  }

  lemma HalfWeaken(a: Poly, x: int, y: int)
    requires HalfBounded(a, x) && x <= y
    ensures HalfBounded(a, y)
  {
  }

  // --------------------------------------------------- coefficientwise congruence

  ghost predicate CongPoly(a: Poly, b: Poly, m: int)
    requires m > 0
  {
    |a| == |b| && forall i :: 0 <= i < |a| ==> Cong(a[i], b[i], m)
  }

  /** y is x modulo q, up to a perturbation of at most k in every coefficient. */
  ghost predicate Near(y: Poly, x: Poly, q: int, k: int)
    requires q > 0
  {
    exists delta: Poly :: |delta| == |x| && Bounded(delta, k) && CongPoly(y, Add(x, delta), q)
  }

  /** Congruent coefficient lists differ by m times a polynomial. */
  lemma CongPolyWitness(a: Poly, b: Poly, m: int) returns (k: Poly)
    requires m > 0 && CongPoly(a, b, m)
    ensures |k| == |a| && a == Add(b, Scale(m, k))
  {
    k := seq(|a|, i requires 0 <= i < |a| => a[i] / m - b[i] / m);
    forall i | 0 <= i < |a|
      ensures a[i] == Add(b, Scale(m, k))[i]
    {
      CongMod(a[i], b[i], m);
      assert m * (a[i] / m - b[i] / m) == m * (a[i] / m) - m * (b[i] / m);
    }
  }

  lemma CongPolyFrom(a: Poly, b: Poly, m: int, k: Poly)
    requires m > 0 && |a| == |b| == |k| && a == Add(b, Scale(m, k))
    ensures CongPoly(a, b, m)
  {
    forall i | 0 <= i < |a|
      ensures Cong(a[i], b[i], m)
    {
      CongFrom(a[i], b[i], m, k[i]);
    }
  }

  lemma CongPolyAdd(a: Poly, b: Poly, c: Poly, d: Poly, m: int)
    requires m > 0 && CongPoly(a, b, m) && CongPoly(c, d, m) && |a| == |c|
    ensures CongPoly(Add(a, c), Add(b, d), m)
  {
    forall i | 0 <= i < |a|
      ensures Cong(Add(a, c)[i], Add(b, d)[i], m)
    {
      CongAdd(a[i], b[i], c[i], d[i], m);
    }
  }

  lemma CongPolyTrans(a: Poly, b: Poly, c: Poly, m: int)
    requires m > 0 && CongPoly(a, b, m) && CongPoly(b, c, m)
    ensures CongPoly(a, c, m)
  {
  }

  lemma CongPolyDivisor(a: Poly, b: Poly, m: int, k: int)
    requires m > 0 && k > 0 && m * k > 0 && CongPoly(a, b, m * k)
    ensures CongPoly(a, b, m)
  {
    forall d | 0 <= d < |a|
      ensures Cong(a[d], b[d], m)
    {
      CongDivisor(a[d], b[d], m, k);
    }
  }

  /** Adding zero times a vector changes nothing. */
  lemma AddNothing(a: Poly, x: Poly)
    requires |a| == |x|
    ensures Add(a, Scale(0, x)) == a
  {
  }
}
