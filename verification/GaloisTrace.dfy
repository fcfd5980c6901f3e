/**
 The coefficient projection of the canonical lift: shifts by powers of X and the trace
 over the automorphisms X -> X^(stride + 1). The trace keeps n times the constant
 coefficient and cancels every other, and it multiplies errors by no more than n.
 */
module GaloisTrace {
  import opened Arith
  import opened Vectors
  import opened Negacyclic
  import opened FrobeniusSection
  import opened DigitRadius
  import opened LiftFeasibility

  // ----------------------------------------------------------------- error algebra

  /** Errors add. */
  lemma WithinSum(x: Poly, m: Poly, v: int, y: Poly, k: Poly, w: int, q: int, p: int)
    requires p * q > 0 && |x| == |y| && WithinError(x, m, q, p, v) && WithinError(y, k, q, p, w)
    ensures WithinError(Add(x, y), Add(m, k), q, p, v + w)
  {
    forall i | 0 <= i < |x|
      ensures Abs(Centered(p * Add(x, y)[i] - q * Add(m, k)[i], p * q)) <= v + w
    {
      assert Abs(Centered(p * x[i] - q * m[i], p * q)) <= v && Abs(Centered(p * y[i] - q * k[i], p * q)) <= w;
      SumAt(x[i], m[i], y[i], k[i], q, p, v, w, Add(x, y)[i], Add(m, k)[i]);
    }
  }

  lemma SumAt(x: int, m: int, y: int, k: int, q: int, p: int, v: int, w: int, z: int, l: int)
    requires p * q > 0 && z == x + y && l == m + k
    requires Abs(Centered(p * x - q * m, p * q)) <= v && Abs(Centered(p * y - q * k, p * q)) <= w
    ensures Abs(Centered(p * z - q * l, p * q)) <= v + w
  {
    ErrorSum(x, m, y, k, q, p);
  }

  lemma ErrorSum(x: int, m: int, y: int, k: int, q: int, p: int)
    requires p * q > 0
    ensures Abs(Centered(p * (x + y) - q * (m + k), p * q)) <= Abs(Centered(p * x - q * m, p * q)) + Abs(Centered(p * y - q * k, p * q))
  {
    var a, b := p * x - q * m, p * y - q * k;
    CenteredRange(a, p * q);
    CenteredRange(b, p * q);
    CongAdd(a, Centered(a, p * q), b, Centered(b, p * q), p * q);
    Distribute(p, x, y);
    Distribute(q, m, k);
    CenteredLeast(a + b, Centered(a, p * q) + Centered(b, p * q), p * q);
  }

  lemma ReadError(x: Poly, m: Poly, p: int, q: int, i: nat)
    requires i < |x| == |m|
    ensures Add(Scale(p, x), Scale(-q, m))[i] == p * x[i] - q * m[i]
  {
    assert (-q) * m[i] == -(q * m[i]);
  }

  /** Every centered coefficient is within v. */
  ghost predicate CenteredWithin(z: Poly, w: int, v: int)
    requires w > 0
  {
    forall i :: 0 <= i < |z| ==> Abs(Centered(z[i], w)) <= v
  }

  lemma WithinVector(x: Poly, m: Poly, q: int, p: int, v: int)
    requires p * q > 0 && |x| == |m|
    ensures WithinError(x, m, q, p, v) <==> CenteredWithin(Add(Scale(p, x), Scale(-q, m)), p * q, v)
  {
    forall i | 0 <= i < |x|
      ensures Add(Scale(p, x), Scale(-q, m))[i] == p * x[i] - q * m[i]
    {
      ReadError(x, m, p, q, i);
    }
  }

  lemma MovedError(b: int, a: int, w: int)
    requires w > 0 && (b == a || b == -a)
    ensures Abs(Centered(b, w)) <= Abs(Centered(a, w))
  {
    CenteredRange(a, w);
    CongScale(-1, a, Centered(a, w), w);
    CenteredLeast(b, if b == a then Centered(a, w) else -Centered(a, w), w);
  }

  lemma RotatedErrors(z: Poly, w: int, v: int)
    requires w > 0 && CenteredWithin(z, w, v)
    ensures CenteredWithin(Rotate(z), w, v)
  {
    if |z| > 0 {
      MovedError(Rotate(z)[0], z[|z| - 1], w);
    }
  }

  /** X^(2n - j) brings coefficient j to the front. */
  lemma ShiftedConstant(m: Poly, j: nat)
    requires 0 < j < |m|
    ensures Power(2 * |m| - j, m)[0] == m[j]
  {
    var n := |m|;
    PowerSum(n, n - j, m);
    PowerFull(Power(n - j, m));
    PowerCoefficient(n - j, m, 0);
  }

  // --------------------------------------------------------------- the automorphism

  /** An odd multiplier permutes the residues modulo a power of two. */
  lemma {:induction false} OddInjective(d: int, u: int, n: nat)
    requires PowerOfTwo(n) && u % 2 == 1 && (d * u) % n == 0
    ensures d % n == 0
    decreases n
  {
    if n > 1 {
      var k := (d * u) / n;
      assert d * u == n * k;
      EvenFactor(d, u, n / 2, k);
      var h := d / 2;
      assert h * u == n / 2 * k by {
        Assoc(2, h, u);
        Assoc(2, n / 2, k);
      }
      DivModUnique(h * u, n / 2, k, 0);
      OddInjective(h, u, n / 2);
      DivModUnique(d, n, h / (n / 2), 0) by {
        Assoc(2, n / 2, h / (n / 2));
      }
    }
  }

  lemma EvenFactor(d: int, u: int, h: int, k: int)
    requires u % 2 == 1 && d * u == 2 * h * k
    ensures d % 2 == 0
  {
    Assoc(2, h, k);
    var w := u / 2;
    Distribute(d, 2 * w, 1);
    Exchange(d, 2, w);
    var y, z := h * k, d * w;
    assert d == 2 * (y - z);
  }

  /** A monomial has one coefficient, of magnitude 1, at its exponent modulo n. */
  lemma TermAt(i: nat, u: nat, n: nat, j: nat)
    requires n > 0 && j < n
    ensures Term(i, u, n)[j] == if (i * u) % n != j then 0 else if (i * u) % (2 * n) < n then 1 else -1
  {
    var e, k := i * u, (i * u) % (2 * n);
    MonomialMod(e, n);
    MonomialCoefficient(k, n, j);
    var d := e / (2 * n);
    assert e == 2 * n * d + k;
    Assoc(2, n, d);
    Exchange(2, n, d);
    Assoc(n, 2, d);
    if k < n {
      DivModUnique(e, n, 2 * d, k);
    } else {
      Distribute(n, 2 * d, 1);
      DivModUnique(e, n, 2 * d + 1, k - n);
    }
  }

  lemma DifferentTerms(i: nat, k: nat, u: nat, n: nat)
    requires PowerOfTwo(n) && u % 2 == 1 && i < k < n
    ensures (i * u) % n != (k * u) % n
  {
    if (i * u) % n == (k * u) % n {
      DifferenceMultiple(i * u, k * u, n);
      DistributeSub(u, k, i);
      OddInjective(k - i, u, n);
      DivModUnique(k - i, n, 0, k - i);
      assert false;
    }
  }

  lemma DifferenceMultiple(a: int, b: int, n: int)
    requires n > 0 && a % n == b % n
    ensures (b - a) % n == 0
  {
    DistributeSub(n, b / n, a / n);
    DivModUnique(b - a, n, b / n - a / n, 0);
  }

  /** Every coefficient of a(X^u) is, up to its sign, one coefficient of a. */
  lemma {:induction false} SubstituteAt(a: Poly, u: nat, m: nat, j: nat) returns (i: int)
    requires 0 < |a| && m <= |a| && j < |a| && PowerOfTwo(|a|) && u % 2 == 1
    ensures -1 <= i < m
    ensures i == -1 ==> Substitute(a, u, m)[j] == 0
    ensures i >= 0 ==> (i * u) % |a| == j && (Substitute(a, u, m)[j] == a[i] || Substitute(a, u, m)[j] == -a[i])
  {
    SubstituteSplit(a, u, m);
    if m == 0 {
      return -1;
    }
    i := SubstituteAt(a, u, m - 1, j);
    TermAt(m - 1, u, |a|, j);
    ReadSum(Substitute(a, u, m - 1), Substitute(a, u, m), a[m - 1], Term(m - 1, u, |a|), j);
    if ((m - 1) * u) % |a| == j {
      if i >= 0 {
        DifferentTerms(i, m - 1, u, |a|);
      }
      i := m - 1;
    }
  }

  lemma SubstituteVector(x: Poly, m: Poly, u: nat, c: int, d: int)
    requires |x| == |m| > 0
    ensures Substitute(Add(Scale(c, x), Scale(d, m)), u, |x|)
         == Add(Scale(c, Substitute(x, u, |x|)), Scale(d, Substitute(m, u, |m|)))
  {
    SubstituteAdd(Scale(c, x), Scale(d, m), u, |x|);
    SubstituteScale(c, x, u, |x|);
    SubstituteScale(d, m, u, |x|);
  }

  lemma MovedErrors(z: Poly, u: nat, w: int, v: int)
    requires w > 0 && |z| > 0 && PowerOfTwo(|z|) && u % 2 == 1 && v >= 0 && CenteredWithin(z, w, v)
    ensures CenteredWithin(Substitute(z, u, |z|), w, v)
  {
    forall j | 0 <= j < |z|
      ensures Abs(Centered(Substitute(z, u, |z|)[j], w)) <= v
    {
      var i := SubstituteAt(z, u, |z|, j);
      if i >= 0 {
        MovedError(Substitute(z, u, |z|)[j], z[i], w);
      } else {
        CenteredLeast(0, 0, w);
      }
    }
  }


  // ------------------------------------------------------------------- noisy phases

  ghost predicate IsNoisy(x: Poly, m: Poly, q: int, p: int, v: int, b: bool)
    requires p * q > 0
  {
    forall t {:trigger Unfold(t)} :: Unfold(t) ==> b == WithinError(x, m, q, p, v)
  }

  /** x is a phase of the plaintext m with scaled error at most v; unfolded by NoisyIsWithin. */
  ghost predicate Noisy(x: Poly, m: Poly, q: int, p: int, v: int)
    requires p * q > 0
  {
    assert IsNoisy(x, m, q, p, v, WithinError(x, m, q, p, v));
    var b :| IsNoisy(x, m, q, p, v, b);
    b
  }

  lemma NoisyIsWithin(x: Poly, m: Poly, q: int, p: int, v: int)
    requires p * q > 0
    ensures Noisy(x, m, q, p, v) <==> WithinError(x, m, q, p, v)
  {
    assert Unfold(0);
  }

  lemma NoisyLength(x: Poly, m: Poly, q: int, p: int, v: int)
    requires p * q > 0 && Noisy(x, m, q, p, v)
    ensures |x| == |m|
  {
    NoisyIsWithin(x, m, q, p, v);
  }

  lemma NoisySum(x: Poly, m: Poly, v: int, y: Poly, k: Poly, w: int, q: int, p: int)
    requires p * q > 0 && |x| == |m| == |y| == |k| && Noisy(x, m, q, p, v) && Noisy(y, k, q, p, w)
    ensures Noisy(Add(x, y), Add(m, k), q, p, v + w)
  {
    NoisyIsWithin(x, m, q, p, v);
    NoisyIsWithin(y, k, q, p, w);
    WithinSum(x, m, v, y, k, w, q, p);
    NoisyIsWithin(Add(x, y), Add(m, k), q, p, v + w);
  }

  /** The error as one vector. */
  lemma NoisyVector(x: Poly, m: Poly, q: int, p: int, v: int)
    requires p * q > 0 && |x| == |m|
    ensures Noisy(x, m, q, p, v) <==> CenteredWithin(Add(Scale(p, x), Scale(-q, m)), p * q, v)
  {
    NoisyIsWithin(x, m, q, p, v);
    WithinVector(x, m, q, p, v);
  }

  /** Multiplication by a power of X moves errors around. */
  lemma {:induction false} NoisyShift(k: nat, x: Poly, m: Poly, q: int, p: int, v: int)
    requires p * q > 0 && |x| == |m| && Noisy(x, m, q, p, v)
    ensures Noisy(Power(k, x), Power(k, m), q, p, v)
  {
    if k > 0 {
      NoisyShift(k - 1, x, m, q, p, v);
      NoisyRotate(Power(k - 1, x), Power(k - 1, m), q, p, v);
    }
  }

  lemma NoisyRotate(x: Poly, m: Poly, q: int, p: int, v: int)
    requires p * q > 0 && |x| == |m| && Noisy(x, m, q, p, v)
    ensures Noisy(Rotate(x), Rotate(m), q, p, v)
  {
    NoisyVector(x, m, q, p, v);
    NoisyVector(Rotate(x), Rotate(m), q, p, v);
    RotatedErrors(Add(Scale(p, x), Scale(-q, m)), p * q, v);
    RotateVector(x, m, p, -q);
  }

  lemma RotateVector(x: Poly, m: Poly, c: int, d: int)
    requires |x| == |m|
    ensures Rotate(Add(Scale(c, x), Scale(d, m))) == Add(Scale(c, Rotate(x)), Scale(d, Rotate(m)))
  {
    RotateAdd(Scale(c, x), Scale(d, m));
    RotateScale(c, x);
    RotateScale(d, m);
  }

  /** The automorphisms move errors around. */
  lemma NoisySubstitute(x: Poly, m: Poly, u: nat, q: int, p: int, v: int)
    requires p * q > 0 && |x| == |m| > 0 && PowerOfTwo(|x|) && u % 2 == 1 && v >= 0 && Noisy(x, m, q, p, v)
    ensures Noisy(Substitute(x, u, |x|), Substitute(m, u, |m|), q, p, v)
  {
    NoisyVector(x, m, q, p, v);
    NoisyVector(Substitute(x, u, |x|), Substitute(m, u, |m|), q, p, v);
    MovedErrors(Add(Scale(p, x), Scale(-q, m)), u, p * q, v);
    SubstituteVector(x, m, u, p, -q);
  }

  /** A perturbed phase: the error grows by p*k. */
  lemma NoisyNear(x: Poly, y: Poly, m: Poly, q: int, p: int, v: int, k: int)
    requires q > 0 && p > 0 && p * q > 0 && k >= 0 && Noisy(x, m, q, p, v) && Near(y, x, q, k)
    ensures Noisy(y, m, q, p, v + p * k)
  {
    NoisyIsWithin(x, m, q, p, v);
    var delta: Poly :| |delta| == |x| && Vectors.Bounded(delta, k) && CongPoly(y, Add(x, delta), q);
    KeySwitchSound(x, y, delta, m, q, p, v, k);
    NoisyIsWithin(y, m, q, p, v + p * k);
  }

  // ---------------------------------------------------------------------- the trace

  /** What one trace step adds up, before the error of the key switch. */
  ghost function TraceStep(x: Poly, stride: nat): (r: Poly)
    requires |x| > 0
    ensures |r| == |x|
  {
    Add(x, Substitute(x, stride + 1, |x|))
  }

  ghost predicate TracedRule(x: Poly, stride: nat, zs: seq<Poly>, q: int, k: int)
    requires q > 0 && |x| > 0
    decreases stride
  {
    if stride <= 1 then zs == []
    else
      && |zs| > 0 && |zs[0]| == |x| && Near(zs[0], TraceStep(x, stride), q, k)
      && TracedRule(zs[0], stride / 2, zs[1..], q, k)
  }

  ghost predicate IsTraced(x: Poly, stride: nat, zs: seq<Poly>, q: int, k: int, b: bool)
    requires q > 0 && |x| > 0
  {
    forall t {:trigger Unfold(t)} :: Unfold(t) ==> b == TracedRule(x, stride, zs, q, k)
  }

  /**
   The phases of a trace: one key switch for every stride from the given one down to 2;
   unfolded by TracedSplit.
   */
  ghost predicate Traced(x: Poly, stride: nat, zs: seq<Poly>, q: int, k: int)
    requires q > 0 && |x| > 0
  {
    assert IsTraced(x, stride, zs, q, k, TracedRule(x, stride, zs, q, k));
    var b :| IsTraced(x, stride, zs, q, k, b);
    b
  }

  lemma TracedSplit(x: Poly, stride: nat, zs: seq<Poly>, q: int, k: int)
    requires q > 0 && |x| > 0
    ensures stride <= 1 ==> (Traced(x, stride, zs, q, k) <==> zs == [])
    ensures stride > 1 ==>
              (Traced(x, stride, zs, q, k) <==>
               && |zs| > 0 && |zs[0]| == |x| && Near(zs[0], TraceStep(x, stride), q, k)
               && Traced(zs[0], stride / 2, zs[1..], q, k))
  {
    assert Unfold(0);
  }

  function LastPhase(x: Poly, zs: seq<Poly>): Poly
  {
    if |zs| == 0 then x else zs[|zs| - 1]
  }

  /** The plaintext that the trace leaves. */
  ghost function TraceMessage(m: Poly, stride: nat): (r: Poly)
    requires |m| > 0
    ensures |r| == |m|
    decreases stride
  {
    if stride <= 1 then m else TraceMessage(TraceStep(m, stride), stride / 2)
  }

  lemma StepNoise(x: Poly, m: Poly, stride: nat, z: Poly, q: int, p: int, v: int, k: int, c: int)
    requires q > 0 && p > 0 && p * q > 0 && v >= 0 && k >= 0 && stride % 2 == 0 && c == p * k
    requires |x| == |m| > 0 && PowerOfTwo(|x|) && Noisy(x, m, q, p, v) && Near(z, TraceStep(x, stride), q, k)
    ensures Noisy(z, TraceStep(m, stride), q, p, 2 * v + c)
  {
    NoisySubstitute(x, m, stride + 1, q, p, v);
    NoisySum(x, m, v, Substitute(x, stride + 1, |x|), Substitute(m, stride + 1, |m|), v, q, p);
    NoisyNear(TraceStep(x, stride), z, TraceStep(m, stride), q, p, 2 * v, k);
  }

  /** The error after the trace, doubled and switched once for every stride. */
  function TraceBound(stride: nat, v: int, k: int): int
    decreases stride
  {
    if stride <= 1 then v else TraceBound(stride / 2, 2 * v + k, k)
  }

  /** The trace multiplies the error by the stride and pays for every switch in proportion. */
  lemma {:induction false} TraceBoundSum(stride: nat, v: int, k: int)
    requires PowerOfTwo(stride)
    ensures TraceBound(stride, v, k) == stride * v + (stride - 1) * k
    decreases stride
  {
    if stride > 1 {
      var h := stride / 2;
      TraceBoundSum(h, 2 * v + k, k);
      Distribute(h, 2 * v, k);
      Assoc(h, 2, v);
      Distribute(k, h, h - 1);
    }
  }

  lemma FirstStep(x: Poly, m: Poly, stride: nat, zs: seq<Poly>, q: int, p: int, v: int, k: int, c: int)
    requires q > 0 && p > 0 && p * q > 0 && v >= 0 && k >= 0 && stride > 1 && PowerOfTwo(stride) && c == p * k
    requires |x| == |m| > 0 && PowerOfTwo(|x|) && Noisy(x, m, q, p, v) && Traced(x, stride, zs, q, k)
    ensures |zs| > 0 && |zs[0]| == |x| && Traced(zs[0], stride / 2, zs[1..], q, k)
    ensures Noisy(zs[0], TraceStep(m, stride), q, p, 2 * v + c)
  {
    TracedSplit(x, stride, zs, q, k);
    StepNoise(x, m, stride, zs[0], q, p, v, k, c);
  }

  lemma {:induction false} TraceNoise(x: Poly, m: Poly, stride: nat, zs: seq<Poly>, q: int, p: int, v: int, k: int, c: int)
    requires q > 0 && p > 0 && p * q > 0 && v >= 0 && k >= 0 && PowerOfTwo(stride) && 0 <= c == p * k
    requires |x| == |m| > 0 && PowerOfTwo(|x|) && Noisy(x, m, q, p, v) && Traced(x, stride, zs, q, k)
    ensures Noisy(LastPhase(x, zs), TraceMessage(m, stride), q, p, TraceBound(stride, v, c))
    decreases stride
  {
    if stride > 1 {
      FirstStep(x, m, stride, zs, q, p, v, k, c);
      TraceNoise(zs[0], TraceStep(m, stride), stride / 2, zs[1..], q, p, 2 * v + c, k, c);
      assert LastPhase(x, zs) == LastPhase(zs[0], zs[1..]);
    } else {
      TracedSplit(x, stride, zs, q, k);
    }
  }

  // ------------------------------------------------------------- what the trace keeps

  /** Only multiples of h carry a coefficient. */
  ghost predicate Sparse(m: Poly, h: nat)
    requires h > 0
  {
    forall i :: 0 <= i < |m| && i % h != 0 ==> m[i] == 0
  }

  /** X^(h*c) goes to (-1)^c * X^(h*c) under X -> X^(stride + 1) when n = stride*h. */
  lemma SparseTerm(c: nat, h: nat, stride: nat, n: nat, j: nat)
    requires h > 0 && n == stride * h && h * c < n && j < n
    ensures Term(h * c, stride + 1, n)[j] == if h * c != j then 0 else if c % 2 == 0 then 1 else -1
  {
    var i, e := h * c, (h * c) * (stride + 1);
    TermAt(i, stride + 1, n, j);
    assert e == i + n * c by {
      Distribute(i, stride, 1);
      Exchange(h * c, stride, 1);
      Assoc(stride, h, c);
    }
    DivModUnique(e, n, c, i);
    var d := c / 2;
    Distribute(n, 2 * d, 1);
    Assoc(n, 2, d);
    Exchange(n, 2, d);
    Assoc(2, n, d);
    if c % 2 == 0 {
      DivModUnique(e, 2 * n, d, i);
    } else {
      DivModUnique(e, 2 * n, d, n + i);
    }
  }

  /** The sign a multiple of h gets from the automorphism. */
  function SparseSign(j: nat, h: nat): int
    requires h > 0
  {
    if (j / h) % 2 == 0 then 1 else -1
  }

  lemma SparseTermAt(i: nat, h: nat, stride: nat, n: nat, j: nat)
    requires h > 0 && n == stride * h && i < n && j < n && i % h == 0
    ensures Term(i, stride + 1, n)[j] == if i != j then 0 else SparseSign(j, h)
  {
    assert i == h * (i / h);
    SparseTerm(i / h, h, stride, n, j);
  }

  lemma {:induction false} SparseSubstitute(m: Poly, h: nat, stride: nat, n: nat, k: nat, j: nat)
    requires h > 0 && |m| == n == stride * h && k <= n && j < n && Sparse(m, h)
    ensures Substitute(m, stride + 1, k)[j] == if j >= k then 0 else SparseSign(j, h) * m[j]
  {
    SubstituteSplit(m, stride + 1, k);
    if k > 0 {
      var i := k - 1;
      SparseSubstitute(m, h, stride, n, i, j);
      ReadSum(Substitute(m, stride + 1, i), Substitute(m, stride + 1, k), m[i], Term(i, stride + 1, n), j);
      if i % h == 0 {
        SparseTermAt(i, h, stride, n, j);
      } else {
        assert m[i] == 0;
      }
    }
  }

  /** One step doubles the even multiples of h and cancels the odd ones. */
  lemma StepSparse(m: Poly, h: nat, stride: nat)
    requires h > 0 && 0 < |m| == stride * h && Sparse(m, h)
    ensures Sparse(TraceStep(m, stride), 2 * h) && TraceStep(m, stride)[0] == 2 * m[0]
  {
    forall j | 0 <= j < |m|
      ensures TraceStep(m, stride)[j] == if (j / h) % 2 == 0 then 2 * m[j] else 0
      ensures j % (2 * h) != 0 ==> TraceStep(m, stride)[j] == 0
    {
      SparseSubstitute(m, h, stride, |m|, |m|, j);
      if j % h == 0 && (j / h) % 2 == 0 {
        var c := j / h / 2;
        Exchange(h, 2, c);
        Assoc(2, h, c);
        DivModUnique(j, 2 * h, c, 0);
      }
    }
    DivModUnique(0, h, 0, 0);
  }

  /** The whole trace keeps n times the constant coefficient and nothing else. */
  lemma {:induction false} TraceProjects(m: Poly, h: nat, stride: nat)
    requires h > 0 && 0 < |m| == stride * h && PowerOfTwo(stride) && Sparse(m, h)
    ensures TraceMessage(m, stride) == Const(stride * m[0], |m|)
    decreases stride
  {
    if stride <= 1 {
      forall i | 0 < i < |m|
        ensures m[i] == 0
      {
        DivModUnique(i, h, 0, i);
      }
    } else {
      var half := stride / 2;
      StepSparse(m, h, stride);
      Assoc(half, 2, h);
      Exchange(2, half, h);
      TraceProjects(TraceStep(m, stride), 2 * h, half);
      Assoc(half, 2, m[0]);
    }
  }

  // -------------------------------------------------------------- the projection

  /** Coefficient j moved to the front. */
  function Shifted(x: Poly, j: nat): (r: Poly)
    requires j < |x|
    ensures |r| == |x|
  {
    Power(if j == 0 then 0 else 2 * |x| - j, x)
  }

  lemma ShiftedNoise(x: Poly, m: Poly, j: nat, q: int, p: int, v: int)
    requires p * q > 0 && |x| == |m| && j < |x| && Noisy(x, m, q, p, v)
    ensures Noisy(Shifted(x, j), Shifted(m, j), q, p, v)
  {
    NoisyShift(if j == 0 then 0 else 2 * |x| - j, x, m, q, p, v);
  }

  /** Shifting and tracing encrypt n times coefficient j, as a constant. */
  lemma ProjectionNoise(x: Poly, m: Poly, j: nat, zs: seq<Poly>, q: int, p: int, v: int, k: int)
    requires q > 0 && p > 0 && p * q > 0 && v >= 0 && k >= 0 && |x| == |m| && j < |x| && PowerOfTwo(|x|)
    requires Noisy(x, m, q, p, v) && Traced(Shifted(x, j), |x|, zs, q, k)
    ensures Noisy(LastPhase(Shifted(x, j), zs), Const(|x| * m[j], |x|), q, p, TraceBound(|x|, v, p * k))
  {
    ShiftedNoise(x, m, j, q, p, v);
    MulNonNegative(p, k);
    TraceNoise(Shifted(x, j), Shifted(m, j), |x|, zs, q, p, v, k, p * k);
    ProjectionMessage(m, j);
  }

  lemma ProjectionMessage(m: Poly, j: nat)
    requires j < |m| && PowerOfTwo(|m|)
    ensures TraceMessage(Shifted(m, j), |m|) == Const(|m| * m[j], |m|)
  {
    if j > 0 {
      ShiftedConstant(m, j);
    }
    TraceProjects(Shifted(m, j), 1, |m|);
  }

  /** Congruent phases have the same error. */
  lemma NoisyCong(x: Poly, y: Poly, m: Poly, q: int, p: int, v: int)
    requires q > 0 && p > 0 && p * q > 0 && Noisy(x, m, q, p, v) && CongPoly(y, x, q)
    ensures Noisy(y, m, q, p, v)
  {
    var delta := Zero(|x|);
    assert Add(x, delta) == x;
    assert Near(y, x, q, 0);
    NoisyNear(x, y, m, q, p, v, 0);
  }

  /** c_0 + X*c_1 + ... of the first k elements. */
  ghost function Reassembled(cs: seq<Poly>, n: nat, k: nat): (r: Poly)
    requires k <= |cs| && forall i :: 0 <= i < |cs| ==> |cs[i]| == n
    ensures |r| == n
  {
    if k == 0 then Zero(n) else Add(Reassembled(cs, n, k - 1), Power(k - 1, cs[k - 1]))
  }

  /** Reassembly adds one error for every coefficient. */
  lemma {:induction false} ReassemblyNoise(ds: seq<Poly>, ms: seq<Poly>, n: nat, k: nat, q: int, p: int, v: int)
    requires q > 0 && p > 0 && p * q > 0 && v >= 0 && |ds| == |ms| && k <= |ds|
    requires forall i :: 0 <= i < |ds| ==> |ds[i]| == n && |ms[i]| == n && Noisy(ds[i], ms[i], q, p, v)
    ensures Noisy(Reassembled(ds, n, k), Reassembled(ms, n, k), q, p, k * v)
  {
    if k == 0 {
      ZeroNoise(n, q, p);
    } else {
      ReassemblyNoise(ds, ms, n, k - 1, q, p, v);
      NoisyShift(k - 1, ds[k - 1], ms[k - 1], q, p, v);
      NoisySum(Reassembled(ds, n, k - 1), Reassembled(ms, n, k - 1), (k - 1) * v, Power(k - 1, ds[k - 1]), Power(k - 1, ms[k - 1]), v, q, p);
      Distribute(v, k - 1, 1);
    }
  }

  lemma ZeroNoise(n: nat, q: int, p: int)
    requires p * q > 0
    ensures Noisy(Zero(n), Zero(n), q, p, 0)
  {
    NoisyIsWithin(Zero(n), Zero(n), q, p, 0);
    CenteredLeast(0, 0, p * q);
  }

  lemma ShiftedValue(c: int, k: nat, n: nat, m: Poly)
    requires 0 < n && m == Const(c, n)
    ensures Power(k, m) == Scale(c, Monomial(k, n))
  {
    assert m == Scale(c, Const(1, n));
    PowerScale(k, c, Const(1, n));
  }

  /** Constants reassemble to the list of their values. */
  lemma {:induction false} ReassembledConstants(values: seq<int>, ms: seq<Poly>, n: nat, k: nat)
    requires 0 < n == |values| == |ms| && k <= n && forall i :: 0 <= i < n ==> |ms[i]| == n && ms[i] == Const(values[i], n)
    ensures Reassembled(ms, n, k) == values[..k] + Zero(n - k)
  {
    if k == 0 {
      assert values[..0] + Zero(n) == Zero(n);
    } else {
      ReassembledConstants(values, ms, n, k - 1);
      ShiftedValue(values[k - 1], k - 1, n, ms[k - 1]);
      PlaceNext(values, k - 1);
    }
  }
}
