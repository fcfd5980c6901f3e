/**
 The exact BFV noise oracle: the phase error of a ciphertext, the scale-rounded
 tensor product, and the proof that the certified multiplication bound is sound
 for every ciphertext pair, secret, degree and modulus it admits.
 */
module NoiseOracle {
  import opened Arith
  import opened Vectors
  import opened Negacyclic
  import opened Wrappers

  // ------------------------------------------------------------------ phases

  predicate Shaped(ciphertext: seq<Poly>, n: nat)
  {
    |ciphertext| > 0 && forall k :: 0 <= k < |ciphertext| ==> |ciphertext[k]| == n
  }

  /** The first k + 1 terms of the phase c0 + c1*s + c2*s^2 + ... */
  ghost function PartialPhase(ciphertext: seq<Poly>, s: Poly, k: nat): (r: Poly)
    requires |s| > 0 && Shaped(ciphertext, |s|) && k < |ciphertext|
    ensures |r| == |s|
  {
    if k == 0 then ciphertext[0]
    else Add(PartialPhase(ciphertext, s, k - 1), Mul(ciphertext[k], RingPower(s, k)))
  }

  ghost function Phase(ciphertext: seq<Poly>, s: Poly): (r: Poly)
    requires |s| > 0 && Shaped(ciphertext, |s|)
    ensures |r| == |s|
  {
    PartialPhase(ciphertext, s, |ciphertext| - 1)
  }

  /**
   t times the distance of each phase coefficient from the ideal grid point,
   taken in the chart of width t*q: the constant coefficient carries the message.
   */
  function ErrorOf(phase: Poly, message: int, q: int, t: int): (r: Poly)
    requires q > 0 && t > 0 && t * q > 0
    ensures |r| == |phase|
  {
    seq(|phase|, i requires 0 <= i < |phase| =>
      Centered(t * phase[i] - (if i == 0 then q * Centered(message, t) else 0), t * q))
  }

  method NegacyclicMul(left: Poly, right: Poly) returns (result: Result<Poly>)
    ensures result.Err? <==> left == [] || |left| != |right|
    ensures result.Ok? ==> result.value == Mul(left, right)
  {
    if left == [] || |left| != |right| {
      return Err;
    }
    var product := MulLoops(left, right);
    return Ok(product);
  }

  /** The accumulation of the phase over the ciphertext components. */
  method PhaseLoop(ciphertext: seq<Poly>, secret: Poly) returns (phase: Poly)
    requires |secret| > 0 && Shaped(ciphertext, |secret|)
    ensures phase == Phase(ciphertext, secret)
  {
    phase := ciphertext[0];
    var power := Const(1, |secret|);
    for k := 1 to |ciphertext|
      invariant power == RingPower(secret, k - 1)
      invariant phase == PartialPhase(ciphertext, secret, k - 1)
    {
      power := MulLoops(power, secret);
      var term := MulLoops(ciphertext[k], power);
      phase := Add(phase, term);
    }
  }

  method PhaseError(ciphertext: seq<Poly>, message: int, secret: Poly, q: int, t: int)
    returns (result: Poly)
    requires q > 0 && t > 0 && t * q > 0
    requires |secret| > 0 && Shaped(ciphertext, |secret|)
    ensures result == ErrorOf(Phase(ciphertext, secret), message, q, t)
  {
    var phase := PhaseLoop(ciphertext, secret);
    result := seq(|phase|, i requires 0 <= i < |phase| => Centered(t * phase[i], t * q));
    result := result[0 := Centered(t * phase[0] - q * Centered(message, t), t * q)];
    assert result == ErrorOf(phase, message, q, t);
  }

  lemma PhaseOfTwo(c0: Poly, c1: Poly, s: Poly)
    requires |c0| == |c1| == |s| > 0
    ensures Phase([c0, c1], s) == Add(c0, Mul(c1, s))
  {
    FirstPower(s);
    assert PartialPhase([c0, c1], s, 0) == c0;
  }

  lemma PhaseOfThree(c0: Poly, c1: Poly, c2: Poly, s: Poly)
    requires |c0| == |c1| == |c2| == |s| > 0
    ensures Phase([c0, c1, c2], s) == Add(Add(c0, Mul(c1, s)), Mul(c2, Mul(s, s)))
  {
    FirstPower(s);
    var ct := [c0, c1, c2];
    assert PartialPhase(ct, s, 0) == c0;
    assert PartialPhase(ct, s, 1) == Add(c0, Mul(c1, s));
    assert RingPower(s, 2) == Mul(RingPower(s, 1), s);
  }

  // ------------------------------------------------------- the rounded tensor

  /** round(t*x/q) in every coefficient. */
  function ScaleRound(d: Poly, q: int, t: int): (r: Poly)
    requires q > 0
    ensures |r| == |d|
  {
    seq(|d|, i requires 0 <= i < |d| => Nearest(t * d[i], q))
  }

  ghost function CrossComponent(a0: Poly, a1: Poly, b0: Poly, b1: Poly): (r: Poly)
    requires |a0| == |a1| == |b0| == |b1|
    ensures |r| == |a0|
  {
    Add(Mul(a0, b1), Mul(a1, b0))
  }

  ghost function MultiplyTensor(a0: Poly, a1: Poly, b0: Poly, b1: Poly, q: int, t: int): (r: seq<Poly>)
    requires q > 0 && |a0| == |a1| == |b0| == |b1|
    ensures |r| == 3 && Shaped(r, |a0|)
  {
    [ScaleRound(Mul(a0, b0), q, t), ScaleRound(CrossComponent(a0, a1, b0, b1), q, t), ScaleRound(Mul(a1, b1), q, t)]
  }

  /** q*round(t*d/q) - t*d: what rounding adds to a component. */
  function RoundingError(d: Poly, q: int, t: int): (r: Poly)
    requires q > 0
    ensures |r| == |d|
  {
    seq(|d|, i requires 0 <= i < |d| => q * Nearest(t * d[i], q) - t * d[i])
  }

  lemma RoundingSplit(d: Poly, q: int, t: int)
    requires q > 0
    ensures Scale(q, ScaleRound(d, q, t)) == Add(Scale(t, d), RoundingError(d, q, t))
    ensures HalfBounded(RoundingError(d, q, t), q)
  {
    forall i | 0 <= i < |d|
      ensures 2 * Abs(RoundingError(d, q, t)[i]) <= q
    {
      NearestResidualAny(t * d[i], q);
    }
  }

  /** (a0 + a1*s)*(b0 + b1*s) is the phase of the unrounded tensor. */
  lemma TensorIdentity(a0: Poly, a1: Poly, b0: Poly, b1: Poly, s: Poly)
    requires |a0| == |a1| == |b0| == |b1| == |s|
    ensures Mul(Add(a0, Mul(a1, s)), Add(b0, Mul(b1, s)))
         == Add(Add(Mul(a0, b0), Mul(CrossComponent(a0, a1, b0, b1), s)), Mul(Mul(a1, b1), Mul(s, s)))
  {
    var x, y := Mul(a1, s), Mul(b1, s);
    MulAddLeft(a0, x, Add(b0, y));
    MulAddRight(a0, b0, y);
    MulAddRight(x, b0, y);
    // a0*(b1*s) = (a0*b1)*s
    MulAssoc(a0, b1, s);
    // (a1*s)*b0 = (a1*b0)*s
    MulComm(x, b0);
    MulAssoc(b0, a1, s);
    MulComm(b0, a1);
    // (a1*s)*(b1*s) = (a1*b1)*(s*s)
    MulAssoc(a1, s, y);
    MulLeftComm(s, b1, s);
    MulAssoc(a1, b1, Mul(s, s));
    MulAddLeft(Mul(a0, b1), Mul(a1, b0), s);
    AddSwap(Mul(a0, b0), Mul(a0, y), Mul(x, b0), Mul(x, y));
    Regroup(Mul(a0, b0), Mul(a0, y), Mul(x, b0), Mul(x, y));
  }

  lemma Regroup(p: Poly, u: Poly, v: Poly, w: Poly)
    requires |p| == |u| == |v| == |w|
    ensures Add(Add(p, u), Add(v, w)) == Add(Add(p, Add(u, v)), w)
  {
  }

  /** The rounding error that reaches the phase of the rounded tensor. */
  ghost function TensorRounding(a0: Poly, a1: Poly, b0: Poly, b1: Poly, s: Poly, q: int, t: int): (r: Poly)
    requires q > 0 && |a0| == |a1| == |b0| == |b1| == |s|
    ensures |r| == |s|
  {
    Add(Add(RoundingError(Mul(a0, b0), q, t), Mul(RoundingError(CrossComponent(a0, a1, b0, b1), q, t), s)),
        Mul(RoundingError(Mul(a1, b1), q, t), Mul(s, s)))
  }

  /** Rounding three components separately costs at most q*(1 + n + n*n)/2. */
  lemma TensorRoundingBounded(a0: Poly, a1: Poly, b0: Poly, b1: Poly, s: Poly, q: int, t: int)
    requires q > 0 && |a0| == |a1| == |b0| == |b1| == |s| && Ternary(s)
    ensures HalfBounded(TensorRounding(a0, a1, b0, b1, s, q, t), (1 + |s| + |s| * |s|) * q)
  {
    RoundingSplit(Mul(a0, b0), q, t);
    RoundingSplit(CrossComponent(a0, a1, b0, b1), q, t);
    RoundingSplit(Mul(a1, b1), q, t);
    WeightedSumBounded(RoundingError(Mul(a0, b0), q, t), RoundingError(CrossComponent(a0, a1, b0, b1), q, t),
                       RoundingError(Mul(a1, b1), q, t), s, q);
  }

  /** e0 + e1*s + e2*s*s for half-unit errors and a ternary s. */
  lemma WeightedSumBounded(e0: Poly, e1: Poly, e2: Poly, s: Poly, q: int)
    requires |e0| == |e1| == |e2| == |s| && Ternary(s) && q >= 0
    requires HalfBounded(e0, q) && HalfBounded(e1, q) && HalfBounded(e2, q)
    ensures HalfBounded(Add(Add(e0, Mul(e1, s)), Mul(e2, Mul(s, s))), (1 + |s| + |s| * |s|) * q)
  {
    TernaryAction(e1, s, q);
    SquareAction(e2, s, q);
    HalfSumBounded(e0, Mul(e1, s), Mul(e2, Mul(s, s)), |s|, q);
  }

  lemma SquareAction(e: Poly, s: Poly, q: int)
    requires |e| == |s| && Ternary(s) && q >= 0 && HalfBounded(e, q)
    ensures HalfBounded(Mul(e, Mul(s, s)), |s| * (|s| * q))
  {
    TernaryAction(e, s, q);
    MulMono(0, |s|, q);
    TernaryAction(Mul(e, s), s, |s| * q);
    MulAssoc(e, s, s);
  }

  lemma HalfSumBounded(x: Poly, y: Poly, z: Poly, n: nat, q: int)
    requires |x| == |y| == |z|
    requires HalfBounded(x, q) && HalfBounded(y, n * q) && HalfBounded(z, n * (n * q))
    ensures HalfBounded(Add(Add(x, y), z), (1 + n + n * n) * q)
  {
    HalfAdd(x, y, q, n * q);
    HalfAdd(Add(x, y), z, q + n * q, n * (n * q));
    WeightSum(n, q);
    HalfWeaken(Add(Add(x, y), z), q + n * q + n * (n * q), (1 + n + n * n) * q);
  }

  lemma WeightSum(n: int, q: int)
    ensures q + n * q + n * (n * q) == (1 + n + n * n) * q
  {
  }

  /** q * phase(rounded tensor) = t * phase(a) * phase(b) + rounding. */
  lemma TensorPhase(a0: Poly, a1: Poly, b0: Poly, b1: Poly, s: Poly, q: int, t: int)
    requires q > 0 && |a0| == |a1| == |b0| == |b1| == |s| > 0
    ensures Scale(q, Phase(MultiplyTensor(a0, a1, b0, b1, q, t), s))
         == Add(Scale(t, Mul(Phase([a0, a1], s), Phase([b0, b1], s))), TensorRounding(a0, a1, b0, b1, s, q, t))
  {
    var d0, d1, d2 := Mul(a0, b0), CrossComponent(a0, a1, b0, b1), Mul(a1, b1);
    var r0, r1, r2 := ScaleRound(d0, q, t), ScaleRound(d1, q, t), ScaleRound(d2, q, t);
    PhaseOfTwo(a0, a1, s);
    PhaseOfTwo(b0, b1, s);
    PhaseOfThree(r0, r1, r2, s);
    TensorIdentity(a0, a1, b0, b1, s);
    RoundedComponent(d1, s, q, t);
    RoundedComponent(d2, Mul(s, s), q, t);
    RoundingSplit(d0, q, t);
    CollectScaled(q, r0, Mul(r1, s), Mul(r2, Mul(s, s)), t, d0, Mul(d1, s), Mul(d2, Mul(s, s)),
      RoundingError(d0, q, t), Mul(RoundingError(d1, q, t), s), Mul(RoundingError(d2, q, t), Mul(s, s)));
  }

  lemma RoundedComponent(d: Poly, s: Poly, q: int, t: int)
    requires q > 0 && |d| == |s|
    ensures Scale(q, Mul(ScaleRound(d, q, t), s)) == Add(Scale(t, Mul(d, s)), Mul(RoundingError(d, q, t), s))
  {
    RoundingSplit(d, q, t);
    MulScaleLeft(q, ScaleRound(d, q, t), s);
    MulAddLeft(Scale(t, d), RoundingError(d, q, t), s);
    MulScaleLeft(t, d, s);
  }

  lemma CollectScaled(q: int, r0: Poly, r1: Poly, r2: Poly, t: int, d0: Poly, d1: Poly, d2: Poly,
                      e0: Poly, e1: Poly, e2: Poly)
    requires |r0| == |r1| == |r2| == |d0| == |d1| == |d2| == |e0| == |e1| == |e2|
    requires Scale(q, r0) == Add(Scale(t, d0), e0)
    requires Scale(q, r1) == Add(Scale(t, d1), e1)
    requires Scale(q, r2) == Add(Scale(t, d2), e2)
    ensures Scale(q, Add(Add(r0, r1), r2)) == Add(Scale(t, Add(Add(d0, d1), d2)), Add(Add(e0, e1), e2))
  {
    ScaleAdd(q, Add(r0, r1), r2);
    ScaleAdd(q, r0, r1);
    ScaleAdd(t, Add(d0, d1), d2);
    ScaleAdd(t, d0, d1);
    AddSwap(Scale(t, d0), e0, Scale(t, d1), e1);
    AddSwap(Add(Scale(t, d0), Scale(t, d1)), Add(e0, e1), Scale(t, d2), e2);
  }

  // ------------------------------------------------------ the certified bound

  /**
   The certified bound on the scaled error of a product. `switchError` bounds
   the phase perturbation of a key switch; zero is the bare tensor product.
   */
  function ScalarMultiplyBound(n: int, t: int, q: int, va: int, vb: int, switchError: int): Result<int>
  {
    if n < 2 || n % 2 != 0 || t < 3 || t % 2 == 0 || Min(va, vb) < 0 || 2 * Max(va, vb) >= q then Err
    else
      var factor := (t - 1) / 2 + n * t * (n / 2 + 1);
      Ok(factor * (va + vb) + n / 2 * Min(va, vb) + (t * (1 + n + n * n) + 1) / 2 + t * switchError)
  }

  /**
   The exact decomposition behind the error of a ciphertext:
   t*phase = q*(m + t*winding) + error.
   */
  lemma PhaseDecomposition(phase: Poly, message: int, q: int, t: int, v: int) returns (winding: Poly)
    requires q > 0 && t >= 3 && t % 2 == 1 && t * q > 0 && |phase| > 0 && |phase| % 2 == 0
    requires HalfBounded(phase, (|phase| + 1) * q)
    requires Bounded(ErrorOf(phase, message, q, t), v) && 2 * v < q
    ensures |winding| == |phase| && Bounded(winding, |phase| / 2)
    ensures Scale(t, phase) == Add(Scale(q, Add(Const(Centered(message, t), |phase|), Scale(t, winding))), ErrorOf(phase, message, q, t))
  {
    var n := |phase|;
    var raw := Const(Centered(message, t), n);
    var e := ErrorOf(phase, message, q, t);
    CenteredRange(message, t);
    var target := Sub(Scale(t, phase), Scale(q, raw));
    ErrorCong(phase, message, q, t);
    winding := CongPolyWitness(target, e, t * q);
    forall i | 0 <= i < n
      ensures Abs(winding[i]) <= n / 2
      ensures Scale(t, phase)[i] == Add(Scale(q, Add(raw, Scale(t, winding))), e)[i]
    {
      DecompositionAt(phase, raw, e, winding, target, t, q, i);
    }
  }

  lemma DecompositionAt(x: Poly, m: Poly, e: Poly, k: Poly, target: Poly, t: int, q: int, i: nat)
    requires i < |x| == |m| == |e| == |k| == |target| && |x| % 2 == 0 && t >= 3 && q > 0 && t * q > 0
    requires target == Sub(Scale(t, x), Scale(q, m)) && target == Add(e, Scale(t * q, k))
    requires 2 * Abs(x[i]) <= (|x| + 1) * q && 2 * Abs(m[i]) <= t - 1 && 2 * Abs(e[i]) < q
    ensures Abs(k[i]) <= |x| / 2
    ensures Scale(t, x)[i] == Add(Scale(q, Add(m, Scale(t, k))), e)[i]
  {
    ReadSum(e, target, t * q, k, i);
    ReadDifference(x, m, target, t, q, i);
    WindingCoefficient(|x|, t, q, x[i], m[i], e[i], k[i]);
    ReadAssembled(m, k, e, q, t, i);
  }

  lemma ReadDifference(x: Poly, m: Poly, target: Poly, t: int, q: int, i: nat)
    requires i < |x| == |m| && target == Sub(Scale(t, x), Scale(q, m))
    ensures target[i] == t * x[i] + -1 * (q * m[i])
  {
  }

  lemma ReadAssembled(m: Poly, k: Poly, e: Poly, q: int, t: int, i: nat)
    requires i < |m| == |k| == |e|
    ensures Add(Scale(q, Add(m, Scale(t, k))), e)[i] == q * (m[i] + t * k[i]) + e[i]
  {
  }

  lemma WindingCoefficient(n: int, t: int, q: int, x: int, m: int, e: int, k: int)
    requires n > 0 && n % 2 == 0 && t >= 3 && q > 0 && t * q > 0
    requires 2 * Abs(x) <= (n + 1) * q && 2 * Abs(m) <= t - 1 && 2 * Abs(e) < q
    requires t * x + -1 * (q * m) == e + (t * q) * k
    ensures Abs(k) <= n / 2 && t * x == q * (m + t * k) + e
  {
    WindingBound(n, t, q, x, m, e, k);
    Distribute(q, m, t * k);
    Assoc(q, t, k);
  }

  lemma ErrorCong(phase: Poly, message: int, q: int, t: int)
    requires q > 0 && t > 0 && t * q > 0 && |phase| > 0
    ensures CongPoly(Sub(Scale(t, phase), Scale(q, Const(Centered(message, t), |phase|))), ErrorOf(phase, message, q, t), t * q)
  {
    var m := Centered(message, t);
    forall i | 0 <= i < |phase|
      ensures Cong(Sub(Scale(t, phase), Scale(q, Const(m, |phase|)))[i], ErrorOf(phase, message, q, t)[i], t * q)
    {
      var x := t * phase[i] - (if i == 0 then q * m else 0);
      CenteredRange(x, t * q);
      assert Sub(Scale(t, phase), Scale(q, Const(m, |phase|)))[i] == x;
    }
  }

  /** A phase of magnitude at most (n+1)*q/2 winds at most n/2 times. */
  lemma WindingBound(n: int, t: int, q: int, x: int, m: int, e: int, k: int)
    requires n > 0 && n % 2 == 0 && t >= 3 && q > 0 && t * q > 0
    requires 2 * Abs(x) <= (n + 1) * q && 2 * Abs(m) <= t - 1 && 2 * Abs(e) < q
    requires t * x - q * m == e + (t * q) * k
    ensures Abs(k) <= n / 2
  {
    var w := t * q;
    HalfMulBound(t, x, (n + 1) * q);
    Exchange(t, n + 1, q);
    HalfMulBound(q, m, t - 1);
    DistributeSub(q, t, 1);
    AbsMul(w, k);
    TriangleBound(t * x, q * m, e, w * k, (n + 1) * w, w - q, q);
    Distribute(w, n + 1, 1);
    Assoc(2, w, Abs(k));
    Exchange(2, w, Abs(k));
    CancelLess(w, 2 * Abs(k), n + 2);
  }

  lemma TriangleBound(tx: int, qm: int, e: int, wk: int, y: int, z: int, q: int)
    requires tx - qm == e + wk
    requires 2 * Abs(tx) <= y && 2 * Abs(qm) <= z && 2 * Abs(e) < q
    ensures 2 * Abs(wk) < y + z + q
  {
  }

  /** The phase of a centered ciphertext under a ternary secret. */
  lemma CenteredPhaseBounded(c0: Poly, c1: Poly, s: Poly, q: int)
    requires |c0| == |c1| == |s| > 0 && Ternary(s) && q > 0
    requires HalfBounded(c0, q) && HalfBounded(c1, q)
    ensures HalfBounded(Phase([c0, c1], s), (|s| + 1) * q)
  {
    PhaseOfTwo(c0, c1, s);
    TernaryAction(c1, s, q);
    HalfAdd(c0, Mul(c1, s), q, |s| * q);
    Distribute(q, |s|, 1);
    HalfWeaken(Add(c0, Mul(c1, s)), q + |s| * q, (|s| + 1) * q);
  }

  /** (q*u + e)*(q*w + f), coefficient by coefficient. */
  lemma ExpandProduct(q: int, u: Poly, e: Poly, w: Poly, f: Poly)
    requires |u| == |e| == |w| == |f|
    ensures Mul(Add(Scale(q, u), e), Add(Scale(q, w), f))
         == Add(Add(Scale(q * q, Mul(u, w)), Scale(q, Add(Mul(u, f), Mul(w, e)))), Mul(e, f))
  {
    MulAddLeft(Scale(q, u), e, Add(Scale(q, w), f));
    MulScaleLeft(q, u, Add(Scale(q, w), f));
    MulAddRight(u, Scale(q, w), f);
    MulScaleRight(u, q, w);
    MulAddRight(e, Scale(q, w), f);
    MulScaleRight(e, q, w);
    MulComm(e, w);
    CollectProduct(q, Mul(u, w), Mul(u, f), Mul(w, e), Mul(e, f));
  }

  lemma CollectProduct(q: int, uw: Poly, uf: Poly, we: Poly, ef: Poly)
    requires |uw| == |uf| == |we| == |ef|
    ensures Add(Scale(q, Add(Scale(q, uw), uf)), Add(Scale(q, we), ef))
         == Add(Add(Scale(q * q, uw), Scale(q, Add(uf, we))), ef)
  {
    forall i | 0 <= i < |uw|
      ensures q * (q * uw[i] + uf[i]) + (q * we[i] + ef[i]) == (q * q) * uw[i] + q * (uf[i] + we[i]) + ef[i]
    {
      assert q * (q * uw[i] + uf[i]) == q * (q * uw[i]) + q * uf[i];
      assert q * (q * uw[i]) == (q * q) * uw[i];
      assert q * (uf[i] + we[i]) == q * uf[i] + q * we[i];
    }
  }

  /** The mixed winding term of a product of two decomposed phases. */
  ghost function MixedWinding(m: int, k: Poly, p: int, l: Poly, t: int): (r: Poly)
    requires |k| == |l|
    ensures |r| == |k|
  {
    Add(Add(Scale(m, l), Scale(p, k)), Scale(t, Mul(k, l)))
  }

  /** (m + t*k)*(p + t*l) = m*p + t*(m*l + p*k + t*k*l). */
  lemma WindingProducts(m: int, k: Poly, p: int, l: Poly, t: int)
    requires |k| == |l| > 0
    ensures Mul(Add(Const(m, |k|), Scale(t, k)), Add(Const(p, |k|), Scale(t, l)))
         == Add(Const(m * p, |k|), Scale(t, MixedWinding(m, k, p, l, t)))
  {
    var n := |k|;
    var y := Add(Const(p, n), Scale(t, l));
    WindingAction(m, k, t, y);
    MulAddRight(k, Const(p, n), Scale(t, l));
    MulComm(k, Const(p, n));
    MulConstLeft(p, k);
    MulScaleRight(k, t, l);
    CollectWinding(m, k, p, l, Mul(k, l), t);
  }

  lemma CollectWinding(m: int, k: Poly, p: int, l: Poly, kl: Poly, t: int)
    requires |k| == |l| == |kl| > 0
    ensures Add(Scale(m, Add(Const(p, |k|), Scale(t, l))), Scale(t, Add(Scale(p, k), Scale(t, kl))))
         == Add(Const(m * p, |k|), Scale(t, Add(Add(Scale(m, l), Scale(p, k)), Scale(t, kl))))
  {
    var n := |k|;
    var c := Const(p, n);
    forall i | 0 <= i < n
      ensures m * (c[i] + t * l[i]) + t * (p * k[i] + t * kl[i])
           == Const(m * p, n)[i] + t * (m * l[i] + p * k[i] + t * kl[i])
    {
      assert m * (c[i] + t * l[i]) == m * c[i] + t * (m * l[i]);
      assert t * (m * l[i] + (p * k[i] + t * kl[i])) == t * (m * l[i]) + t * (p * k[i] + t * kl[i]);
      assert m * c[i] == Const(m * p, n)[i];
    }
  }

  lemma WindingAction(m: int, k: Poly, t: int, f: Poly)
    requires |k| == |f| > 0
    ensures Mul(Add(Const(m, |k|), Scale(t, k)), f) == Add(Scale(m, f), Scale(t, Mul(k, f)))
  {
    MulAddLeft(Const(m, |k|), Scale(t, k), f);
    MulConstLeft(m, f);
    MulScaleLeft(t, k, f);
  }

  /**
   Admitted operands for which `rest` is at least the quadratic term n*va*vb/q plus
   the rounding term t*(1 + n + n*n)/2, as far as an integer can tell.
   */
  predicate Covers(n: int, t: int, q: int, va: int, vb: int, rest: int)
  {
    && n >= 2 && n % 2 == 0 && t >= 3 && t % 2 == 1 && Min(va, vb) >= 0 && 2 * Max(va, vb) < q
    && 2 * (n * va * vb) + q * (t * (1 + n + n * n)) < 2 * (q * (rest + 1))
  }

  /** The linear terms of a product, the rest, and a phase perturbation of sw. */
  function TermBound(n: int, t: int, va: int, vb: int, rest: int, sw: int): int
  {
    ((t - 1) / 2 + n * t * (n / 2 + 1)) * (va + vb) + rest + t * sw
  }

  /** x = (ef + t*eps)/q: the quadratic and rounding terms of one coefficient. */
  lemma QuotientBound(t: int, q: int, y: int, r: int, rest: int, x: int, ef: int, eps: int)
    requires q > 0 && t > 0 && q * x == ef + t * eps
    requires Abs(ef) <= y && 2 * Abs(eps) <= r * q && 2 * y + q * (t * r) < 2 * (q * (rest + 1))
    ensures Abs(x) <= rest
  {
    HalfMulBound(t, eps, r * q);
    Exchange(q, t, r);
    AbsMul(q, x);
    CancelLess(q, Abs(x), rest + 1);
  }

  /** t*(k*f + l*e): the winding terms of one coefficient. */
  lemma LinearBound(n: int, t: int, g: int, va: int, vb: int, kf: int, le: int)
    requires n >= 0 && t > 0 && g >= 0 && va >= 0 && vb >= 0
    requires Abs(kf) <= n * g * vb && Abs(le) <= n * g * va
    ensures Abs(t * (kf + le)) <= n * t * (g + 1) * (va + vb)
  {
    var v := va + vb;
    Distribute(n * g, vb, va);
    AbsMulBound(t, kf + le, t, n * g * v);
    Assoc(t, n * g, v);
    MulMono(0, n, t);
    Distribute(n * t, g, 1);
    Exchange(t, n, g);
    Assoc(n, t, g);
    MulMono(t * (n * g), n * t * (g + 1), v);
  }

  /** The error terms of one coefficient, before reduction modulo t*q. */
  lemma CoefficientBound(n: int, t: int, q: int, va: int, vb: int, rest: int, sw: int,
                         mf: int, pe: int, kf: int, le: int, x: int, ef: int, eps: int, delta: int)
    requires Covers(n, t, q, va, vb, rest) && sw >= 0
    requires Abs(mf) <= (t - 1) / 2 * vb && Abs(pe) <= (t - 1) / 2 * va
    requires Abs(kf) <= n * (n / 2) * vb && Abs(le) <= n * (n / 2) * va
    requires q * x == ef + t * eps
    requires Abs(ef) <= n * va * vb && 2 * Abs(eps) <= (1 + n + n * n) * q && Abs(delta) <= sw
    ensures Abs(mf + pe + t * (kf + le) + x + t * delta) <= TermBound(n, t, va, vb, rest, sw)
  {
    var g, half, v := n / 2, (t - 1) / 2, va + vb;
    QuotientBound(t, q, n * va * vb, 1 + n + n * n, rest, x, ef, eps);
    LinearBound(n, t, g, va, vb, kf, le);
    AbsMulBound(t, delta, t, sw);
    Distribute(half, va, vb);
    Distribute(v, half, n * t * (g + 1));
    AddBounds(mf, pe, t * (kf + le), x, t * delta, half * va, half * vb, n * t * (g + 1) * v, rest, t * sw);
  }

  lemma AddBounds(mf: int, pe: int, lin: int, x: int, dep: int, y0: int, y1: int, y2: int, y3: int, y4: int)
    requires Abs(mf) <= y1 && Abs(pe) <= y0 && Abs(lin) <= y2 && Abs(x) <= y3 && Abs(dep) <= y4
    ensures Abs(mf + pe + lin + x + dep) <= y0 + y1 + y2 + y3 + y4
  {
  }

  /** 2*n*va*vb <= q*n*min(va, vb) for admitted operands. */
  lemma QuadraticBound(n: int, q: int, va: int, vb: int)
    requires n >= 0 && va >= 0 && vb >= 0 && 2 * Max(va, vb) < q
    ensures 2 * (n * va * vb) <= q * (n * Min(va, vb))
  {
    var lo, hi := Min(va, vb), Max(va, vb);
    assert n * va * vb == (n * lo) * hi;
    MulMono(2 * hi, q, n * lo);
    assert 2 * ((n * lo) * hi) == (n * lo) * (2 * hi);
  }

  // --------------------------------------------------------------- soundness

  ghost predicate Admitted(c0: Poly, c1: Poly, s: Poly, message: int, q: int, t: int, v: int)
    requires q > 0 && t > 0 && t * q > 0
  {
    && |c0| == |c1| == |s| > 0
    && HalfBounded(c0, q) && HalfBounded(c1, q)
    && Bounded(ErrorOf(Phase([c0, c1], s), message, q, t), v)
  }

  /** The product of two decomposed phases, as equations between vectors. */
  lemma ProductVectors(a: Poly, b: Poly, ea: Poly, eb: Poly, ka: Poly, kb: Poly, m: int, p: int, q: int, t: int)
    returns (uw: Poly, uf: Poly, we: Poly)
    requires 0 < |a| == |b| == |ea| == |eb| == |ka| == |kb|
    requires Scale(t, a) == Add(Scale(q, Add(Const(m, |a|), Scale(t, ka))), ea)
    requires Scale(t, b) == Add(Scale(q, Add(Const(p, |b|), Scale(t, kb))), eb)
    ensures |uw| == |uf| == |we| == |a|
    ensures Scale(t, Scale(t, Mul(a, b))) == Add(Add(Scale(q * q, uw), Scale(q, Add(uf, we))), Mul(ea, eb))
    ensures uw == Add(Const(m * p, |a|), Scale(t, MixedWinding(m, ka, p, kb, t)))
    ensures uf == Add(Scale(m, eb), Scale(t, Mul(ka, eb)))
    ensures we == Add(Scale(p, ea), Scale(t, Mul(kb, ea)))
  {
    var u, w := Add(Const(m, |a|), Scale(t, ka)), Add(Const(p, |a|), Scale(t, kb));
    uw, uf, we := Mul(u, w), Mul(u, eb), Mul(w, ea);
    MulScaleLeft(t, a, Scale(t, b));
    MulScaleRight(a, t, b);
    ExpandProduct(q, u, ea, w, eb);
    WindingProducts(m, ka, p, kb, t);
    WindingAction(m, ka, t, eb);
    WindingAction(p, kb, t, ea);
  }

  /**
   Every coefficient of the product's scaled error, modulo t*q, is a sum of
   plaintext cross terms, winding cross terms and a rounded quotient x. Here
   ab, ef, kf and le stand for the products of the phases, of the errors and of
   the windings with the errors.
   */
  lemma ProductErrorTerms(phase: Poly, ab: Poly, uw: Poly, uf: Poly, we: Poly, ef: Poly, kf: Poly, le: Poly,
                          ea: Poly, eb: Poly, z: Poly, eps: Poly, m: int, p: int, q: int, t: int, i: nat)
    returns (x: int)
    requires i < |phase| == |ab| == |uw| == |uf| == |we| == |ef| == |kf| == |le| == |ea| == |eb| == |z| == |eps|
    requires Scale(t, Scale(t, ab)) == Add(Add(Scale(q * q, uw), Scale(q, Add(uf, we))), ef)
    requires uw == Add(Const(m * p, |phase|), Scale(t, z))
    requires uf == Add(Scale(m, eb), Scale(t, kf))
    requires we == Add(Scale(p, ea), Scale(t, le))
    requires Scale(q, phase) == Add(Scale(t, ab), eps)
    ensures q * x == ef[i] + t * eps[i]
    ensures t * phase[i] - q * Const(m * p, |phase|)[i]
         == (m * eb[i] + p * ea[i] + t * (kf[i] + le[i]) + x) + (t * q) * z[i]
  {
    var raw := Const(m * p, |phase|)[i];
    ReadExpansion(t, ab, q * q, uw, q, uf, we, ef, i);
    ReadScaledSum(q, phase, t, ab, eps, i);
    ReadSum(Const(m * p, |phase|), uw, t, z, i);
    ReadAction(uf, m, eb, t, kf, i);
    ReadAction(we, p, ea, t, le, i);
    x := ErrorIdentity(q, t, phase[i], ab[i], eps[i], raw, z[i], m * eb[i], p * ea[i], kf[i], le[i], ef[i]);
  }

  lemma ErrorIdentity(q: int, t: int, phase: int, ab: int, eps: int, raw: int, z: int,
                      mf: int, pe: int, kf: int, le: int, ef: int) returns (x: int)
    requires q * phase == t * ab + eps
    requires t * (t * ab) == (q * q) * (raw + t * z) + q * (mf + t * kf + (pe + t * le)) + ef
    ensures q * x == ef + t * eps
    ensures t * phase - q * raw == (mf + pe + t * (kf + le) + x) + (t * q) * z
  {
    var cross := mf + t * kf + (pe + t * le);
    x := t * phase - q * (raw + t * z) - cross;
    CoefficientIdentity(q, t, phase, ab, eps, raw + t * z, cross, ef);
    Distribute(q, raw, t * z);
    Assoc(q, t, z);
    Distribute(t, kf, le);
  }

  lemma ReadExpansion(t: int, ab: Poly, qq: int, uw: Poly, q: int, uf: Poly, we: Poly, ef: Poly, i: nat)
    requires i < |ab| == |uw| == |uf| == |we| == |ef|
    requires Scale(t, Scale(t, ab)) == Add(Add(Scale(qq, uw), Scale(q, Add(uf, we))), ef)
    ensures t * (t * ab[i]) == qq * uw[i] + q * (uf[i] + we[i]) + ef[i]
  {
    assert Scale(t, Scale(t, ab))[i] == Add(Add(Scale(qq, uw), Scale(q, Add(uf, we))), ef)[i];
  }

  lemma ReadScaledSum(q: int, x: Poly, t: int, y: Poly, z: Poly, i: nat)
    requires i < |x| == |y| == |z|
    requires Scale(q, x) == Add(Scale(t, y), z)
    ensures q * x[i] == t * y[i] + z[i]
  {
    assert Scale(q, x)[i] == Add(Scale(t, y), z)[i];
  }

  lemma ReadAction(x: Poly, m: int, f: Poly, t: int, kf: Poly, i: nat)
    requires i < |x| == |f| == |kf|
    requires x == Add(Scale(m, f), Scale(t, kf))
    ensures x[i] == m * f[i] + t * kf[i]
  {
  }

  lemma CoefficientIdentity(q: int, t: int, p: int, ab: int, eps: int, uw: int, cross: int, ef: int)
    requires q * p == t * ab + eps
    requires t * (t * ab) == (q * q) * uw + q * cross + ef
    ensures q * (t * p - q * uw - cross) == ef + t * eps
  {
    assert q * (t * p) == t * (q * p);
    assert t * (t * ab + eps) == t * (t * ab) + t * eps;
    assert q * (t * p - q * uw - cross) == q * (t * p) - q * (q * uw) - q * cross;
    assert q * (q * uw) == (q * q) * uw;
  }

  /** The constant plaintext of a product, in the chart of width t*q. */
  lemma MessageProduct(message: int, other: int, q: int, t: int)
    requires q > 0 && t > 0 && t * q > 0
    ensures Cong(q * Centered(message * other, t), q * (Centered(message, t) * Centered(other, t)), t * q)
  {
    CenteredRange(message, t);
    CenteredRange(other, t);
    CenteredRange(message * other, t);
    CongMul(Centered(message, t), message, Centered(other, t), other, t);
    assert q * t == t * q;
    CongScaleModulus(q, Centered(message * other, t), Centered(message, t) * Centered(other, t), t);
  }

  /** Soundness for one coefficient. */
  lemma CoefficientSound(out: int, p: int, x: int, mfpe: int, z: int, delta: int, raw: int, mu: int,
                         q: int, t: int, bound: int)
    requires q > 0 && t > 0 && t * q > 0
    requires t * p - q * raw == mfpe + x + (t * q) * z
    requires Cong(out, p + delta, q)
    requires Cong(mu, q * raw, t * q)
    requires Abs(mfpe + x + t * delta) <= bound
    ensures Abs(Centered(t * out - mu, t * q)) <= bound
  {
    CongScaleModulus(t, out, p + delta, q);
    assert t * (p + delta) == t * p + t * delta;
    CongSub(t * out, t * p + t * delta, mu, q * raw, t * q);
    var w := mfpe + x + t * delta;
    CongFrom(t * p + t * delta - q * raw, w, t * q, z);
    CenteredLeast(t * out - mu, w, t * q);
  }

  /**
   The error law of a product. For every degree, modulus and ternary secret, and
   every two ciphertexts with centered components whose scaled errors are within va
   and vb, the scaled error of the product against the product message is within the
   linear terms plus any `rest` that covers the quadratic and rounding terms, after
   any phase perturbation of at most `sw` (sw = 0 is the rounded tensor itself).
   */
  lemma ProductSound(a0: Poly, a1: Poly, b0: Poly, b1: Poly, s: Poly, ma: int, mb: int,
                     q: int, t: int, va: int, vb: int, rest: int, out: Poly, delta: Poly, sw: int)
    requires Covers(|s|, t, q, va, vb, rest) && sw >= 0 && Ternary(s)
    requires q > 0 && t * q > 0
    requires Admitted(a0, a1, s, ma, q, t, va) && Admitted(b0, b1, s, mb, q, t, vb)
    requires |delta| == |s| && Bounded(delta, sw)
    requires CongPoly(out, Add(Phase(MultiplyTensor(a0, a1, b0, b1, q, t), s), delta), q)
    ensures Bounded(ErrorOf(out, ma * mb, q, t), TermBound(|s|, t, va, vb, rest, sw))
  {
    var ea, ka := OperandDecomposition(a0, a1, s, ma, q, t, va);
    var eb, kb := OperandDecomposition(b0, b1, s, mb, q, t, vb);
    TensorSound(a0, a1, b0, b1, s, ea, eb, ka, kb, ma, mb, q, t, va, vb, rest, out, delta, sw);
  }

  lemma TensorSound(a0: Poly, a1: Poly, b0: Poly, b1: Poly, s: Poly, ea: Poly, eb: Poly, ka: Poly, kb: Poly,
                    ma: int, mb: int, q: int, t: int, va: int, vb: int, rest: int, out: Poly, delta: Poly, sw: int)
    requires Covers(|s|, t, q, va, vb, rest) && sw >= 0 && Ternary(s)
    requires q > 0 && t * q > 0 && |a0| == |a1| == |b0| == |b1| == |s|
    requires Decomposed(|s|, Phase([a0, a1], s), ea, ka, ma, q, t, va)
    requires Decomposed(|s|, Phase([b0, b1], s), eb, kb, mb, q, t, vb)
    requires |delta| == |s| && Bounded(delta, sw)
    requires CongPoly(out, Add(Phase(MultiplyTensor(a0, a1, b0, b1, q, t), s), delta), q)
    ensures Bounded(ErrorOf(out, ma * mb, q, t), TermBound(|s|, t, va, vb, rest, sw))
  {
    var phase, eps := TensorDecomposition(a0, a1, b0, b1, s, q, t);
    DecomposedProductSound(|s|, phase, Phase([a0, a1], s), Phase([b0, b1], s), ea, eb, ka, kb, eps,
      ma, mb, q, t, va, vb, rest, out, delta, sw);
  }

  /** t*phase = q*(m + t*winding) + error, with at most n/2 windings and error at most v. */
  ghost predicate Decomposed(n: nat, phase: Poly, error: Poly, winding: Poly, message: int, q: int, t: int, v: int)
    requires t > 0
  {
    && 0 < n == |phase| == |error| == |winding|
    && Bounded(error, v) && Bounded(winding, n / 2)
    && Scale(t, phase) == Add(Scale(q, Add(Const(Centered(message, t), n), Scale(t, winding))), error)
  }

  /** q*phase = t*a*b + eps, where eps is the rounding of three components. */
  ghost predicate RoundedProduct(n: nat, phase: Poly, a: Poly, b: Poly, eps: Poly, q: int, t: int)
  {
    && n == |phase| == |a| == |b| == |eps|
    && HalfBounded(eps, (1 + n + n * n) * q)
    && Scale(q, phase) == Add(Scale(t, Mul(a, b)), eps)
  }

  lemma OperandDecomposition(c0: Poly, c1: Poly, s: Poly, message: int, q: int, t: int, v: int)
    returns (error: Poly, winding: Poly)
    requires q > 0 && t >= 3 && t % 2 == 1 && t * q > 0 && |s| % 2 == 0 && Ternary(s) && 2 * v < q
    requires Admitted(c0, c1, s, message, q, t, v)
    ensures Decomposed(|s|, Phase([c0, c1], s), error, winding, message, q, t, v)
  {
    CenteredPhaseBounded(c0, c1, s, q);
    error := ErrorOf(Phase([c0, c1], s), message, q, t);
    winding := PhaseDecomposition(Phase([c0, c1], s), message, q, t, v);
  }

  lemma TensorDecomposition(a0: Poly, a1: Poly, b0: Poly, b1: Poly, s: Poly, q: int, t: int)
    returns (phase: Poly, eps: Poly)
    requires q > 0 && |a0| == |a1| == |b0| == |b1| == |s| > 0 && Ternary(s)
    ensures phase == Phase(MultiplyTensor(a0, a1, b0, b1, q, t), s)
    ensures RoundedProduct(|s|, phase, Phase([a0, a1], s), Phase([b0, b1], s), eps, q, t)
  {
    TensorPhase(a0, a1, b0, b1, s, q, t);
    TensorRoundingBounded(a0, a1, b0, b1, s, q, t);
    phase := Phase(MultiplyTensor(a0, a1, b0, b1, q, t), s);
    eps := TensorRounding(a0, a1, b0, b1, s, q, t);
  }

  lemma DecomposedProductSound(n: nat, phase: Poly, a: Poly, b: Poly, ea: Poly, eb: Poly, ka: Poly, kb: Poly, eps: Poly,
                               ma: int, mb: int, q: int, t: int, va: int, vb: int, rest: int, out: Poly, delta: Poly, sw: int)
    requires q > 0 && t > 0 && t * q > 0 && sw >= 0
    requires Covers(n, t, q, va, vb, rest)
    requires Decomposed(n, a, ea, ka, ma, q, t, va) && Decomposed(n, b, eb, kb, mb, q, t, vb)
    requires RoundedProduct(n, phase, a, b, eps, q, t)
    requires |delta| == n && Bounded(delta, sw) && CongPoly(out, Add(phase, delta), q)
    ensures Bounded(ErrorOf(out, ma * mb, q, t), TermBound(n, t, va, vb, rest, sw))
  {
    MulBoundedInf(ka, eb, n / 2, vb);
    MulBoundedInf(kb, ea, n / 2, va);
    MulBoundedInf(ea, eb, va, vb);
    var m, p := Centered(ma, t), Centered(mb, t);
    var uw, uf, we := ProductVectors(a, b, ea, eb, ka, kb, m, p, q, t);
    ErrorWithin(n, phase, Mul(a, b), uw, uf, we, Mul(ea, eb), Mul(ka, eb), Mul(kb, ea), ea, eb,
      MixedWinding(m, ka, p, kb, t), eps, ma, mb, q, t, va, vb, rest, out, delta, sw);
  }

  lemma ErrorWithin(n: nat, phase: Poly, ab: Poly, uw: Poly, uf: Poly, we: Poly, ef: Poly, kf: Poly, le: Poly,
                    ea: Poly, eb: Poly, z: Poly, eps: Poly, ma: int, mb: int,
                    q: int, t: int, va: int, vb: int, rest: int, out: Poly, delta: Poly, sw: int)
    requires q > 0 && t > 0 && t * q > 0 && sw >= 0 && 0 < n
    requires n == |phase| == |ab| == |uw| == |uf| == |we| == |ef| == |kf| == |le| == |ea| == |eb| == |z| == |eps| == |delta|
    requires Covers(n, t, q, va, vb, rest)
    requires Scale(t, Scale(t, ab)) == Add(Add(Scale(q * q, uw), Scale(q, Add(uf, we))), ef)
    requires uw == Add(Const(Centered(ma, t) * Centered(mb, t), |phase|), Scale(t, z))
    requires uf == Add(Scale(Centered(ma, t), eb), Scale(t, kf))
    requires we == Add(Scale(Centered(mb, t), ea), Scale(t, le))
    requires Scale(q, phase) == Add(Scale(t, ab), eps)
    requires Bounded(ea, va) && Bounded(eb, vb) && Bounded(delta, sw)
    requires Bounded(kf, n * (n / 2) * vb) && Bounded(le, n * (n / 2) * va)
    requires Bounded(ef, n * va * vb) && HalfBounded(eps, (1 + n + n * n) * q)
    requires CongPoly(out, Add(phase, delta), q)
    ensures Bounded(ErrorOf(out, ma * mb, q, t), TermBound(n, t, va, vb, rest, sw))
  {
    var m, p := Centered(ma, t), Centered(mb, t);
    MessageProduct(ma, mb, q, t);
    forall i | 0 <= i < |phase|
      ensures Abs(ErrorOf(out, ma * mb, q, t)[i]) <= TermBound(n, t, va, vb, rest, sw)
    {
      var x := ProductErrorTerms(phase, ab, uw, uf, we, ef, kf, le, ea, eb, z, eps, m, p, q, t, i);
      PlaintextTerm(ma, eb[i], t, vb);
      PlaintextTerm(mb, ea[i], t, va);
      FinishCoefficient(out[i], phase[i], n, x, m * eb[i], p * ea[i], kf[i], le[i], ef[i], eps[i], z[i], delta[i],
        Const(m * p, |phase|)[i], if i == 0 then q * Centered(ma * mb, t) else 0, q, t, va, vb, rest, sw);
    }
  }

  lemma PlaintextTerm(message: int, e: int, t: int, v: int)
    requires t > 0 && t % 2 == 1 && Abs(e) <= v
    ensures Abs(Centered(message, t) * e) <= (t - 1) / 2 * v
  {
    CenteredRange(message, t);
    AbsMulBound(Centered(message, t), e, (t - 1) / 2, v);
  }

  lemma FinishCoefficient(out: int, phase: int, n: int, x: int, mf: int, pe: int, kf: int, le: int, ef: int,
                          eps: int, z: int, delta: int, raw: int, mu: int,
                          q: int, t: int, va: int, vb: int, rest: int, sw: int)
    requires q > 0 && t > 0 && t * q > 0 && sw >= 0
    requires Covers(n, t, q, va, vb, rest)
    requires Abs(mf) <= (t - 1) / 2 * vb && Abs(pe) <= (t - 1) / 2 * va
    requires Abs(kf) <= n * (n / 2) * vb && Abs(le) <= n * (n / 2) * va
    requires q * x == ef + t * eps
    requires Abs(ef) <= n * va * vb && 2 * Abs(eps) <= (1 + n + n * n) * q && Abs(delta) <= sw
    requires t * phase - q * raw == (mf + pe + t * (kf + le) + x) + (t * q) * z
    requires Cong(out, phase + delta, q) && Cong(mu, q * raw, t * q)
    ensures Abs(Centered(t * out - mu, t * q)) <= TermBound(n, t, va, vb, rest, sw)
  {
    CoefficientBound(n, t, q, va, vb, rest, sw, mf, pe, kf, le, x, ef, eps, delta);
    CoefficientSound(out, phase, x, mf + pe + t * (kf + le), z, delta, raw, mu, q, t,
      TermBound(n, t, va, vb, rest, sw));
  }

  /** The certified bound covers the quadratic term by n/2*min(va, vb). */
  lemma ScalarCovers(n: int, t: int, q: int, va: int, vb: int, sw: int) returns (rest: int)
    requires ScalarMultiplyBound(n, t, q, va, vb, sw).Ok?
    ensures Covers(n, t, q, va, vb, rest)
    ensures ScalarMultiplyBound(n, t, q, va, vb, sw).value == TermBound(n, t, va, vb, rest, sw)
  {
    var low, w := Min(va, vb), t * (1 + n + n * n);
    rest := n / 2 * low + (w + 1) / 2;
    QuadraticBound(n, q, va, vb);
    Assoc(2, n / 2, low);
    CoverArithmetic(q, n / 2 * low, w);
  }

  lemma CoverArithmetic(q: int, y: int, w: int)
    requires q > 0
    ensures q * (2 * y) + q * w < 2 * (q * (y + (w + 1) / 2 + 1))
  {
    var c := (w + 1) / 2 + 1;
    Distribute(q, y, c);
    Exchange(2, q, y);
    Exchange(2, q, c);
    MulMono(w + 1, 2 * c, q);
    Distribute(q, w, 1);
  }

  /**
   The bound is exactly what its terms give: it is refused only outside the admitted
   operands, and it is the least integer at or above the real sum of the plaintext,
   winding, quadratic, rounding and switching terms.
   */
  lemma ScalarBoundExact(n: int, t: int, q: int, va: int, vb: int, sw: int, bound: int)
    ensures ScalarMultiplyBound(n, t, q, va, vb, sw).Ok? <==>
              && n >= 2 && n % 2 == 0 && t >= 3 && t % 2 == 1
              && 0 <= va && 0 <= vb && 2 * va < q && 2 * vb < q
    ensures ScalarMultiplyBound(n, t, q, va, vb, sw).Ok? ==>
              (ScalarMultiplyBound(n, t, q, va, vb, sw).value <= bound <==>
               (t - 1) * (va + vb) + 2 * (n * t * (n / 2 + 1) * (va + vb)) + n * Min(va, vb)
               + t * (1 + n + n * n) + 2 * (t * sw) <= 2 * bound)
  {
    if ScalarMultiplyBound(n, t, q, va, vb, sw).Ok? {
      TwiceTerms(n, t, n * t * (n / 2 + 1), va + vb, Min(va, vb));
      LeastSum(((t - 1) / 2 + n * t * (n / 2 + 1)) * (va + vb) + n / 2 * Min(va, vb), t * sw, t * (1 + n + n * n), bound);
    }
  }

  lemma TwiceTerms(n: int, t: int, f: int, v: int, low: int)
    requires n % 2 == 0 && t % 2 == 1
    ensures 2 * (((t - 1) / 2 + f) * v + n / 2 * low) == (t - 1) * v + 2 * (f * v) + n * low
  {
    Distribute(v, (t - 1) / 2, f);
    Assoc(2, (t - 1) / 2, v);
    Assoc(2, n / 2, low);
  }

  lemma LeastSum(whole: int, switch: int, halved: int, bound: int)
    ensures whole + (halved + 1) / 2 + switch <= bound <==> 2 * whole + halved + 2 * switch <= 2 * bound
  {
  }


  /**
   The certified bound is sound. For every degree, modulus and ternary secret,
   and every two ciphertexts with centered components whose scaled errors are
   within va and vb, the scaled error of the product against the product
   message is within the certified bound, after any phase perturbation of at
   most `sw` (sw = 0 is the rounded tensor itself).
   */
  lemma MultiplySound(a0: Poly, a1: Poly, b0: Poly, b1: Poly, s: Poly, ma: int, mb: int,
                      q: int, t: int, va: int, vb: int, out: Poly, delta: Poly, sw: int)
    requires ScalarMultiplyBound(|s|, t, q, va, vb, sw).Ok? && sw >= 0 && Ternary(s)
    requires q > 0 && t * q > 0
    requires Admitted(a0, a1, s, ma, q, t, va) && Admitted(b0, b1, s, mb, q, t, vb)
    requires |delta| == |s| && Bounded(delta, sw)
    requires CongPoly(out, Add(Phase(MultiplyTensor(a0, a1, b0, b1, q, t), s), delta), q)
    ensures Bounded(ErrorOf(out, ma * mb, q, t), ScalarMultiplyBound(|s|, t, q, va, vb, sw).value)
  {
    var rest := ScalarCovers(|s|, t, q, va, vb, sw);
    ProductSound(a0, a1, b0, b1, s, ma, mb, q, t, va, vb, rest, out, delta, sw);
  }

  // --------------------------------------------------------- fresh ciphertexts

  /** floor(q/t): the scale of the plaintext. */
  function Delta(q: int, t: int): int
    requires t > 0
  {
    q / t
  }

  /** A ciphertext with a prescribed fresh error under the mask c1. */
  method ScalarCiphertext(message: int, error: Poly, c1: Poly, secret: Poly, q: int, t: int)
    returns (c0: Poly, mask: Poly)
    requires |error| == |c1| == |secret| > 0 && q > 0 && t > 0
    ensures mask == c1 && |c0| == |c1| && HalfBounded(c0, q)
    ensures CongPoly(Phase([c0, mask], secret), Add(error, Const(Delta(q, t) * (message % t), |c1|)), q)
  {
    var product := MulLoops(c1, secret);
    c0 := seq(|c1|, i requires 0 <= i < |c1| => Centered(error[i] - product[i], q));
    ghost var before := c0;
    c0 := c0[0 := Centered(c0[0] + q / t * (message % t), q)];
    mask := c1;
    PhaseOfTwo(c0, c1, secret);
    FreshPhase(before, c0, error, product, Delta(q, t) * (message % t), q);
  }

  lemma FreshPhase(before: Poly, c0: Poly, error: Poly, product: Poly, shift: int, q: int)
    requires q > 0 && |before| == |c0| == |error| == |product| > 0
    requires forall i :: 0 <= i < |c0| ==> before[i] == Centered(error[i] - product[i], q)
    requires c0 == before[0 := Centered(before[0] + shift, q)]
    ensures HalfBounded(c0, q)
    ensures CongPoly(Add(c0, product), Add(error, Const(shift, |c0|)), q)
  {
    forall i | 0 <= i < |c0|
      ensures 2 * Abs(c0[i]) <= q
      ensures Cong(Add(c0, product)[i], Add(error, Const(shift, |c0|))[i], q)
    {
      CenteredRange(error[i] - product[i], q);
      CenteredRange(before[0] + shift, q);
      var raw := Const(shift, |c0|)[i];
      CongAdd(before[i], error[i] - product[i], raw, raw, q);
      CongAdd(c0[i], error[i] - product[i] + raw, product[i], product[i], q);
    }
  }

  /**
   The floor scale costs (q mod t)*(t - 1): a fresh ciphertext with error at
   most eta has scaled error at most t*eta + (q mod t)*(t - 1).
   */
  lemma FreshError(phase: Poly, error: Poly, message: int, eta: int, q: int, t: int)
    requires q > 0 && t > 0 && t * q > 0 && |phase| == |error| > 0 && Bounded(error, eta)
    requires CongPoly(phase, Add(error, Const(Delta(q, t) * (message % t), |error|)), q)
    ensures Bounded(ErrorOf(phase, message, q, t), t * eta + q % t * (t - 1))
  {
    var m := message % t;
    var shift := Delta(q, t) * m;
    MulMono(0, t - 1, q % t);
    forall i | 0 <= i < |phase|
      ensures Abs(ErrorOf(phase, message, q, t)[i]) <= t * eta + q % t * (t - 1)
    {
      AbsMulBound(t, error[i], t, eta);
      CongScaleModulus(t, phase[i], Add(error, Const(shift, |error|))[i], q);
      if i == 0 {
        FreshConstant(phase[0], error[0], message, q, t);
        AbsMulBound(q % t, m, q % t, t - 1);
        CenteredLeast(t * phase[0] - q * Centered(message, t), t * error[0] - q % t * m, t * q);
      } else {
        CenteredLeast(t * phase[i], t * error[i], t * q);
      }
    }
  }

  lemma FreshConstant(phase: int, error: int, message: int, q: int, t: int)
    requires q > 0 && t > 0 && t * q > 0
    requires Cong(t * phase, t * (error + Delta(q, t) * (message % t)), t * q)
    ensures Cong(t * phase - q * Centered(message, t), t * error - q % t * (message % t), t * q)
  {
    var m, d := message % t, Delta(q, t);
    CenteredRange(message, t);
    ModCong(message, t);
    CongScaleModulus(q, Centered(message, t), m, t);
    assert q * t == t * q;
    CongSub(t * phase, t * (error + d * m), q * Centered(message, t), q * m, t * q);
    FreshIdentity(q, t, error, d, q % t, m);
  }

  lemma FreshIdentity(q: int, t: int, e: int, d: int, r: int, m: int)
    requires q == t * d + r
    ensures t * (e + d * m) - q * m == t * e - r * m
  {
    Distribute(t, e, d * m);
    Assoc(t, d, m);
    Distribute(m, t * d, r);
  }

  // --------------------------------------------- exact division by the modulus

  /** The floor quotient and remainder of t*x + q/2 by q. */
  function FpdScaleRound(x: int, t: int, q: int): (r: Result<(int, int)>)
    ensures r.Err? <==> t <= 0 || q <= 0
    ensures r.Ok? ==> 0 <= r.value.1 < q && t * x + q / 2 == q * r.value.0 + r.value.1
    ensures r.Ok? ==> 2 * Abs(q * r.value.0 - t * x) <= q
  {
    if t <= 0 || q <= 0 then Err
    else
      NearestResidualAny(t * x, q);
      var z := t * x + q / 2;
      Ok((z / q, z % q))
  }

  function FpdShiftMultiplier(b: int, t: int): Result<int>
  {
    if b < 0 || t <= 0 then Err else Ok(b * t + 1)
  }

  /** The strict capacity condition on the auxiliary modulus; the moduli are tested before the bound. */
  function FpdAuxiliaryCapacityHolds(aux: int, b: int, t: int, q: int): Result<bool>
  {
    if aux <= 0 || q <= 0 then Ok(false)
    else
      match FpdShiftMultiplier(b, t)
      case Err => Err
      case Ok(s) => Ok(aux > 2 * s * q)
  }

  /**
   The condition is exact: it is refused only for a bad operand bound or plaintext
   modulus, and it holds precisely when residues modulo the auxiliary product tell
   all the shifted quotients of [0, 2*s*q] apart.
   */
  lemma FpdCapacityExact(aux: int, b: int, t: int, q: int)
    ensures FpdAuxiliaryCapacityHolds(aux, b, t, q).Err? <==> aux > 0 && q > 0 && (b < 0 || t <= 0)
    ensures aux <= 0 || q <= 0 ==> FpdAuxiliaryCapacityHolds(aux, b, t, q) == Ok(false)
    ensures aux > 0 && q > 0 && b >= 0 && t > 0 ==>
              (FpdAuxiliaryCapacityHolds(aux, b, t, q) == Ok(true) <==>
               forall x, y :: 0 <= x < y <= 2 * (b * t + 1) * q ==> x % aux != y % aux)
  {
    if aux > 0 && q > 0 && b >= 0 && t > 0 {
      MulNonNegative(b, t);
      MulNonNegative(2 * (b * t + 1), q);
      DistinctResidues(aux, 2 * (b * t + 1) * q);
    }
  }

  lemma DistinctResidues(aux: int, top: int)
    requires aux > 0 && top >= 0
    ensures aux > top <==> forall x, y :: 0 <= x < y <= top ==> x % aux != y % aux
  {
    if aux > top {
      forall x, y | 0 <= x < y <= top
        ensures x % aux != y % aux
      {
        DivModUnique(x, aux, 0, x);
        DivModUnique(y, aux, 0, y);
      }
    } else {
      DivModUnique(0, aux, 0, 0);
      DivModUnique(aux, aux, 1, 0);
      assert 0 % aux == aux % aux;
    }
  }

  /**
   Under the capacity condition the shifted quotient lies in [0, 2*s*q], so it
   is recovered exactly from its residue modulo the auxiliary product.
   */
  lemma FpdLiftFits(x: int, aux: int, b: int, t: int, q: int)
    requires q > 0 && Abs(x) <= b * (q * q) && FpdAuxiliaryCapacityHolds(aux, b, t, q) == Ok(true)
    ensures b >= 0 && t > 0
    ensures var y, shift := FpdScaleRound(x, t, q).value.0, FpdShiftMultiplier(b, t).value * q;
            0 <= y + shift <= 2 * shift && (y + shift) % aux - shift == y
  {
    var y, k := FpdScaleRound(x, t, q).value.0, b * t;
    AbsMulBound(t, x, t, b * (q * q));
    OperandLimit(t, b, q);
    AbsMul(q, y);
    QuotientWithin(q, Abs(y), k * q);
    MulMono(0, b, t);
    MulMono(0, k, q);
    Distribute(q, k, 1);
    Assoc(2, k + 1, q);
    DivModUnique(y + (k + 1) * q, aux, 0, y + (k + 1) * q);
  }

  lemma OperandLimit(t: int, b: int, q: int)
    ensures t * (b * (q * q)) == q * (b * t * q)
  {
    Exchange(t, b, q * q);
    Assoc(t, q, q);
    Exchange(t, q, q);
    Exchange(b, q, t * q);
    Assoc(b, t, q);
  }

  lemma QuotientWithin(q: int, y: int, k: int)
    requires q > 0 && 2 * (q * y) <= 2 * (q * k) + q
    ensures y <= k
  {
    Distribute(q, k, 1);
    CancelLess(q, y, k + 1);
  }
}
