/**
 What the canonical-lift certificate bounds. Every term of the ledger is the error law
 of one homomorphic step, and an admitted verdict bounds the actual scaled error of
 every ciphertext that the lift computes.
 */
module LiftNoise {
  import opened Arith
  import opened Vectors
  import opened NoiseOracle
  import opened DigitRadius
  import opened GaloisTrace
  import opened CanonicalSection
  import opened Units
  import Lift = LiftFeasibility

  // ------------------------------------------------------------ the ledger's terms

  /** The degree, the plaintext modulus and the terms of one multiplication. */
  ghost predicate Regime(l: Lift.Ledger)
  {
    && l.n >= 2 && l.n % 2 == 0 && l.expanded >= 3 && l.expanded % 2 == 1
    && l.expanded * (2 * l.half) <= l.modulus
    && l.factor == (l.expanded - 1) / 2 + l.n * l.expanded * (l.n / 2 + 1)
    && l.rounding == CeilDiv(1 + l.n + l.n * l.n, 2)
  }

  lemma LedgerRegime(r: Lift.Record, baseBits: nat)
    requires baseBits > 0 && forall i :: 0 <= i < |r.primes| ==> r.primes[i] > 0
    requires Lift.MakeLedger(r, baseBits).Some?
    ensures Regime(Lift.MakeLedger(r, baseBits).value)
  {
    var l := Lift.MakeLedger(r, baseBits).value;
    OddSquare(r.base);
    HalfOfDelta(l.modulus, l.expanded);
    assert l.expanded * l.n == l.n * l.expanded;
  }

  lemma OddSquare(p: int)
    requires p >= 3 && p % 2 == 1
    ensures p * p >= 3 && (p * p) % 2 == 1
  {
    MulMono(3, p, p);
    OddSum(p * p, OddMultiple(p / 2, p), p);
  }

  lemma OddSum(x: int, y: int, p: int)
    requires x == 2 * y + p && p % 2 == 1
    ensures x % 2 == 1
  {
  }

  function OddMultiple(h: int, p: int): (y: int)
    ensures (2 * h + 1) * p == 2 * y + p
  {
    Distribute(p, 2 * h, 1);
    Assoc(2, h, p);
    h * p
  }

  lemma HalfOfDelta(q: int, t: int)
    requires t > 0
    ensures t * (2 * (q / t / 2)) <= q
  {
    MulMono(2 * (q / t / 2), q / t, t);
  }

  /** An admitted bound leaves the scaled error below half of the modulus. */
  lemma AdmittedFits(t: int, half: int, q: int, e: int)
    requires t > 0 && t * (2 * half) <= q && 0 <= e < half
    ensures t * e >= 0 && 2 * (t * e) < q
  {
    MulNonNegative(t, e);
    MulMono(e + 1, half, t);
    Distribute(t, e, 1);
    Exchange(t, 2, half);
  }

  /** The dyadic ceiling and the rounding term cover the quadratic and rounding errors. */
  lemma CombineCovers(l: Lift.Ledger, left: nat, right: nat)
    requires Lift.Sound(l) && Regime(l) && left < l.half && right < l.half && l.n * l.expanded >= 0
    ensures Covers(l.n, l.expanded, l.modulus, l.expanded * left, l.expanded * right,
                   l.expanded * (Lift.Dyadic(l, left, right) + l.rounding))
  {
    AdmittedFits(l.expanded, l.half, l.modulus, left);
    AdmittedFits(l.expanded, l.half, l.modulus, right);
    Lift.DyadicDominates(l, left, right);
    CeilAbove(l.n * l.expanded * left * right, l.modulus);
    CoverTerms(l.n, l.expanded, l.modulus, left, right, Lift.ExactQuadratic(l, left, right), Lift.Dyadic(l, left, right),
      1 + l.n + l.n * l.n, l.rounding);
  }

  lemma CeilAbove(x: int, m: int)
    requires m > 0
    ensures x <= m * CeilDiv(x, m)
  {
  }

  lemma CoverTerms(n: int, t: int, q: int, left: int, right: int, exact: int, dyadic: int, w: int, rounding: int)
    requires n >= 0 && t > 0 && q > 0 && n * t * left * right <= q * exact && exact <= dyadic && w <= 2 * rounding
    ensures 2 * (n * (t * left) * (t * right)) + q * (t * w) < 2 * (q * (t * (dyadic + rounding) + 1))
  {
    MulMono(exact, dyadic, q);
    Assoc(n, t * left, t * right);
    assert n * (t * left) * (t * right) == t * (n * t * left * right) by {
      Assoc(n, t, left);
      Exchange(t, n * t * left, right);
    }
    MulMono(n * t * left * right, q * dyadic, t);
    Exchange(t, q, dyadic);
    MulMono(w, 2 * rounding, q * t);
    Assoc(q, t, w);
    Assoc(q, t, rounding);
    Assoc(2, q * t, rounding);
    Exchange(q * t, 2, rounding);
    Distribute(t, dyadic, rounding);
    Distribute(q, t * dyadic, t * rounding);
    Distribute(q, t * (dyadic + rounding), 1);
  }

  /** The certified bound of a product is the error law of NoiseOracle in units of the expanded modulus. */
  lemma CombineIsTermBound(l: Lift.Ledger, left: nat, right: nat)
    requires Lift.Sound(l) && Regime(l) && l.n * l.expanded >= 0
    ensures TermBound(l.n, l.expanded, l.expanded * left, l.expanded * right,
                      l.expanded * (Lift.Dyadic(l, left, right) + l.rounding), l.switch)
         == l.expanded * Lift.Combine(l, left, right)
  {
    Lift.CombineValue(l, left, right);
    var d := Lift.Dyadic(l, left, right) + l.rounding;
    Distribute(l.expanded, left, right);
    Exchange(l.factor, l.expanded, left + right);
    Distribute(l.expanded, l.factor * (left + right), d);
    Distribute(l.expanded, l.factor * (left + right) + d, l.switch);
  }

  /**
   The linear terms of the ledger are those of the scalar bound for the expanded
   modulus, and its rounding term is the least integer above half of 1 + n + n*n.
   */
  lemma FactorAndRounding(r: Lift.Record, baseBits: nat, left: nat, right: nat, y: int)
    requires baseBits > 0 && forall i :: 0 <= i < |r.primes| ==> r.primes[i] > 0
    requires Lift.MakeLedger(r, baseBits).Some?
    ensures var l := Lift.MakeLedger(r, baseBits).value;
            && Lift.Sound(l) && (l.rounding <= y <==> 1 + r.n + r.n * r.n <= 2 * y)
            && (left < l.half && right < l.half ==>
                var t := r.base * r.base;
                var scalar := ScalarMultiplyBound(r.n, t, ListProduct(r.primes), t * left, t * right, l.switch);
                && scalar.Ok?
                && t * (l.factor * (left + right) + l.switch)
                == scalar.value - r.n / 2 * Min(t * left, t * right) - (t * (1 + r.n + r.n * r.n) + 1) / 2)
  {
    Lift.LedgerSound(r, baseBits);
    LedgerRegime(r, baseBits);
    var l := Lift.MakeLedger(r, baseBits).value;
    if left < l.half && right < l.half {
      AdmittedFits(l.expanded, l.half, l.modulus, left);
      AdmittedFits(l.expanded, l.half, l.modulus, right);
      LinearTerms(l.factor, l.expanded, left, right, l.switch);
    }
  }

  lemma LinearTerms(f: int, t: int, left: int, right: int, switch: int)
    ensures t * (f * (left + right) + switch) == f * (t * left + t * right) + t * switch
  {
    Distribute(t, f * (left + right), switch);
    Exchange(t, f, left + right);
    Distribute(t, left, right);
  }

  // ------------------------------------------------------------- one multiplication

  ghost predicate CarriesRule(l: Lift.Ledger, c0: Poly, c1: Poly, s: Poly, message: int, e: int)
  {
    && |s| == l.n && l.modulus > 0 && l.expanded > 0 && l.expanded * l.modulus > 0
    && Admitted(c0, c1, s, message, l.modulus, l.expanded, l.expanded * e)
  }

  ghost predicate IsCarries(l: Lift.Ledger, c0: Poly, c1: Poly, s: Poly, message: int, e: int, b: bool)
  {
    forall t {:trigger Unfold(t)} :: Unfold(t) ==> b == CarriesRule(l, c0, c1, s, message, e)
  }

  /**
   A ciphertext with centered components and an error of at most e in units of the grid
   of the plaintext; unfolded by CarriesValue.
   */
  ghost predicate Carries(l: Lift.Ledger, c0: Poly, c1: Poly, s: Poly, message: int, e: int)
  {
    assert IsCarries(l, c0, c1, s, message, e, CarriesRule(l, c0, c1, s, message, e));
    var b :| IsCarries(l, c0, c1, s, message, e, b);
    b
  }

  lemma CarriesValue(l: Lift.Ledger, c0: Poly, c1: Poly, s: Poly, message: int, e: int)
    ensures Carries(l, c0, c1, s, message, e) <==> CarriesRule(l, c0, c1, s, message, e)
  {
    assert Unfold(0);
  }

  ghost predicate MultipliedRule(l: Lift.Ledger, a0: Poly, a1: Poly, b0: Poly, b1: Poly, s: Poly, c0: Poly, c1: Poly)
  {
    && l.modulus > 0 && 0 < |a0| == |a1| == |b0| == |b1| == |s| == |c0| == |c1|
    && HalfBounded(c0, l.modulus) && HalfBounded(c1, l.modulus)
    && Near(Phase([c0, c1], s), Phase(MultiplyTensor(a0, a1, b0, b1, l.modulus, l.expanded), s), l.modulus, l.switch)
  }

  ghost predicate IsMultiplied(l: Lift.Ledger, a0: Poly, a1: Poly, b0: Poly, b1: Poly, s: Poly, c0: Poly, c1: Poly, b: bool)
  {
    forall t {:trigger Unfold(t)} :: Unfold(t) ==> b == MultipliedRule(l, a0, a1, b0, b1, s, c0, c1)
  }

  /** c0 + c1*s is the rounded tensor of two ciphertexts up to a key switch; unfolded by MultipliedValue. */
  ghost predicate Multiplied(l: Lift.Ledger, a0: Poly, a1: Poly, b0: Poly, b1: Poly, s: Poly, c0: Poly, c1: Poly)
  {
    assert IsMultiplied(l, a0, a1, b0, b1, s, c0, c1, MultipliedRule(l, a0, a1, b0, b1, s, c0, c1));
    var b :| IsMultiplied(l, a0, a1, b0, b1, s, c0, c1, b);
    b
  }

  lemma MultipliedValue(l: Lift.Ledger, a0: Poly, a1: Poly, b0: Poly, b1: Poly, s: Poly, c0: Poly, c1: Poly)
    ensures Multiplied(l, a0, a1, b0, b1, s, c0, c1) <==> MultipliedRule(l, a0, a1, b0, b1, s, c0, c1)
  {
    assert Unfold(0);
  }

  /** The error law with the key switch hidden in the phase. */
  lemma NearProduct(a0: Poly, a1: Poly, b0: Poly, b1: Poly, s: Poly, ma: int, mb: int, q: int, t: int, va: int, vb: int,
                    rest: int, out: Poly, sw: int)
    requires Covers(|s|, t, q, va, vb, rest) && sw >= 0 && Ternary(s) && q > 0 && t * q > 0
    requires Admitted(a0, a1, s, ma, q, t, va) && Admitted(b0, b1, s, mb, q, t, vb)
    requires Near(out, Phase(MultiplyTensor(a0, a1, b0, b1, q, t), s), q, sw)
    ensures Bounded(ErrorOf(out, ma * mb, q, t), TermBound(|s|, t, va, vb, rest, sw))
  {
    var phase := Phase(MultiplyTensor(a0, a1, b0, b1, q, t), s);
    var delta: Poly :| |delta| == |phase| && Bounded(delta, sw) && CongPoly(out, Add(phase, delta), q);
    ProductSound(a0, a1, b0, b1, s, ma, mb, q, t, va, vb, rest, out, delta, sw);
  }

  /** The bound of one multiplication holds of the ciphertexts themselves. */
  lemma MultiplicationLaw(l: Lift.Ledger, a0: Poly, a1: Poly, b0: Poly, b1: Poly, s: Poly, c0: Poly, c1: Poly,
                          ma: int, mb: int, left: nat, right: nat)
    requires Lift.Sound(l) && Regime(l) && Ternary(s) && left < l.half && right < l.half
    requires Carries(l, a0, a1, s, ma, left) && Carries(l, b0, b1, s, mb, right)
    requires Multiplied(l, a0, a1, b0, b1, s, c0, c1)
    ensures Carries(l, c0, c1, s, ma * mb, Lift.Combine(l, left, right))
  {
    CarriesValue(l, a0, a1, s, ma, left);
    CarriesValue(l, b0, b1, s, mb, right);
    MultipliedValue(l, a0, a1, b0, b1, s, c0, c1);
    MulNonNegative(l.n, l.expanded);
    CombineCovers(l, left, right);
    CombineIsTermBound(l, left, right);
    NearProduct(a0, a1, b0, b1, s, ma, mb, l.modulus, l.expanded, l.expanded * left, l.expanded * right,
      l.expanded * (Lift.Dyadic(l, left, right) + l.rounding), Phase([c0, c1], s), l.switch);
    CarriesValue(l, c0, c1, s, ma * mb, Lift.Combine(l, left, right));
  }

  // ------------------------------------------------------------ the balanced product

  /** The ciphertexts of a balanced product, from its factors up. */
  datatype Product = Factor(c0: Poly, c1: Poly, message: int) | Times(left: Product, right: Product, c0: Poly, c1: Poly)

  function Message(tree: Product): int
  {
    match tree
    case Factor(_, _, message) => message
    case Times(left, right, _, _) => Message(left) * Message(right)
  }

  /** A product of `count` factors within the leaf bound, split in halves as the recursion splits it. */
  ghost predicate Evaluated(l: Lift.Ledger, tree: Product, s: Poly, count: nat)
  {
    match tree
    case Factor(c0, c1, message) => count == 1 && Carries(l, c0, c1, s, message, l.leaf)
    case Times(left, right, c0, c1) =>
      && count > 1 && Evaluated(l, left, s, count / 2) && Evaluated(l, right, s, count - count / 2)
      && Multiplied(l, left.c0, left.c1, right.c0, right.c1, s, c0, c1)
  }

  /**
   The certificate is sound: an admitted bound of the recursion bounds the scaled
   error of the ciphertext, for every secret and every evaluation of the product.
   */
  lemma {:induction false} ProductCertified(l: Lift.Ledger, tree: Product, s: Poly, count: nat)
    requires Lift.Sound(l) && Regime(l) && Ternary(s) && count >= 1
    requires Evaluated(l, tree, s, count) && Lift.Bounded(l, count).Admitted?
    ensures Carries(l, tree.c0, tree.c1, s, Message(tree), Lift.Bounded(l, count).error)
    decreases tree
  {
    Lift.BoundedSplit(l, count);
    match tree
    case Factor(c0, c1, message) =>
    case Times(left, right, c0, c1) =>
      Lift.BoundedIsRaw(l, count / 2);
      Lift.BoundedIsRaw(l, count - count / 2);
      ProductCertified(l, left, s, count / 2);
      ProductCertified(l, right, s, count - count / 2);
      MultiplicationLaw(l, left.c0, left.c1, right.c0, right.c1, s, c0, c1, Message(left), Message(right),
        Lift.Bounded(l, count / 2).error, Lift.Bounded(l, count - count / 2).error);
  }

  // --------------------------------------------------------------- the affine factors

  /** A scalar message may be read modulo t: the two forms of the scaled error agree. */
  lemma ScalarError(phase: Poly, message: int, q: int, t: int, v: int)
    requires q > 0 && t > 0 && t * q > 0 && |phase| > 0
    ensures Noisy(phase, Const(message, |phase|), q, t, v) <==> Bounded(ErrorOf(phase, message, q, t), v)
  {
    NoisyIsWithin(phase, Const(message, |phase|), q, t, v);
    forall i | 0 <= i < |phase|
      ensures Centered(t * phase[i] - q * Const(message, |phase|)[i], t * q) == ErrorOf(phase, message, q, t)[i]
    {
      ScalarErrorAt(phase[i], message, q, t, i == 0);
    }
  }

  lemma ScalarErrorAt(x: int, message: int, q: int, t: int, front: bool)
    requires q > 0 && t > 0 && t * q > 0
    ensures Centered(t * x - q * (if front then message else 0), t * q)
         == Centered(t * x - (if front then q * Centered(message, t) else 0), t * q)
  {
    CenteredRange(message, t);
    CongScaleModulus(q, Centered(message, t), message, t);
    CongSub(t * x, t * x, q * Centered(message, t), q * message, t * q);
    CenteredCong(t * x - q * Centered(message, t), t * x - q * message, t * q);
  }

  /** The encoded constant -c costs (q mod t)*c. */
  lemma EncodedConstant(c: int, n: nat, q: int, t: int)
    requires q > 0 && t > 0 && t * q > 0 && n > 0 && c >= 0
    ensures Noisy(Const(-(q / t * c), n), Const(-c, n), q, t, q % t * c)
  {
    var x, m := Const(-(q / t * c), n), Const(-c, n);
    NoisyIsWithin(x, m, q, t, q % t * c);
    MulNonNegative(q % t, c);
    forall i | 0 <= i < n
      ensures Abs(Centered(t * x[i] - q * m[i], t * q)) <= q % t * c
    {
      if i == 0 {
        ScaleRemainder(q, t, q / t, q % t, c);
        CenteredLeast(t * x[0] - q * m[0], q % t * c, t * q);
      } else {
        CenteredLeast(0, 0, t * q);
      }
    }
  }

  lemma ScaleRemainder(q: int, t: int, d: int, r: int, c: int)
    requires q == t * d + r
    ensures t * -(d * c) - q * -c == r * c
  {
    Assoc(t, d, c);
    Distribute(c, t * d, r);
    DistributeSub(t, 0, d * c);
    DistributeSub(q, 0, c);
  }

  /** A factor y - c stays within the leaf bound. */
  predicate LeafFits(l: Lift.Ledger, c: int)
  {
    l.expanded > 0 && l.expanded * l.projection + l.modulus % l.expanded * c <= l.expanded * l.leaf
  }

  /** The projection's error and the constant's add up to the leaf, and no smaller one would do. */
  lemma LeafCovers(r: Lift.Record, baseBits: nat, c: int, d: int)
    requires baseBits > 0 && forall i :: 0 <= i < |r.primes| ==> r.primes[i] > 0
    requires Lift.MakeLedger(r, baseBits).Some? && 0 <= c < r.base
    ensures var l := Lift.MakeLedger(r, baseBits).value;
            && LeafFits(l, c)
            && (l.leaf <= l.projection + d <==> l.modulus % l.expanded * (r.base - 1) <= l.expanded * d)
  {
    var l := Lift.MakeLedger(r, baseBits).value;
    var rest := l.modulus % l.expanded;
    MulMono(c, l.base - 1, rest);
    CeilLeast(rest * (l.base - 1), l.expanded, d);
    CeilLeast(rest * (l.base - 1), l.expanded, l.leaf - l.projection);
    Distribute(l.expanded, l.projection, l.leaf - l.projection);
  }

  lemma CeilLeast(x: int, m: int, d: int)
    requires m > 0
    ensures CeilDiv(x, m) <= d <==> x <= m * d
  {
    if x <= m * d {
      Lift.CeilAtMost(x, m, d);
    } else {
      CeilAbove(x, m);
      if CeilDiv(x, m) <= d {
        MulMono(CeilDiv(x, m), d, m);
      }
    }
  }

  /** The traced projection carries exactly the ledger's projection error. */
  lemma ProjectionIsTrace(r: Lift.Record, baseBits: nat)
    requires baseBits > 0 && forall i :: 0 <= i < |r.primes| ==> r.primes[i] > 0
    requires Lift.MakeLedger(r, baseBits).Some?
    ensures var l := Lift.MakeLedger(r, baseBits).value;
            l.expanded * l.projection == TraceBound(l.n, l.expanded * l.phase, l.expanded * l.switch)
  {
    var l := Lift.MakeLedger(r, baseBits).value;
    TraceBoundSum(l.n, l.expanded * l.phase, l.expanded * l.switch);
    Distribute(l.expanded, l.n * l.phase, (l.n - 1) * l.switch);
    Exchange(l.expanded, l.n, l.phase);
    Exchange(l.expanded, l.n - 1, l.switch);
  }

  // ---------------------------------------------------------------------- the circuit

  /** c0 + c1*s is y - c: the encoded constant is subtracted from the first component. */
  ghost predicate LinearFactor(q: int, t: int, y: Poly, c: int, s: Poly, c0: Poly, c1: Poly)
  {
    && q > 0 && t > 0 && t * q > 0 && 0 < |y| == |s| == |c0| == |c1| && HalfBounded(c0, q) && HalfBounded(c1, q)
    && CongPoly(Phase([c0, c1], s), Add(y, Const(-(q / t * c), |y|)), q)
  }

  lemma FactorNoise(q: int, t: int, y: Poly, value: int, c: int, s: Poly, c0: Poly, c1: Poly, v: int, w: int)
    requires LinearFactor(q, t, y, c, s, c0, c1) && c >= 0
    requires Noisy(y, Const(value, |y|), q, t, v) && v + q % t * c <= w
    ensures Admitted(c0, c1, s, value - c, q, t, w)
  {
    var n := |y|;
    var x, m := Const(-(q / t * c), n), Const(-c, n);
    EncodedConstant(c, n, q, t);
    NoisySum(y, Const(value, n), v, x, m, q % t * c, q, t);
    assert Add(Const(value, n), m) == Const(value - c, n);
    NoisyCong(Add(y, x), Phase([c0, c1], s), Const(value - c, n), q, t, v + q % t * c);
    ScalarError(Phase([c0, c1], s), value - c, q, t, v + q % t * c);
  }

  /** The factors y - start, y - (start + 1), ... of one projected coefficient and their balanced product. */
  ghost predicate LinearFactors(l: Lift.Ledger, tree: Product, y: Poly, s: Poly, start: nat, count: nat)
  {
    match tree
    case Factor(c0, c1, _) => count == 1 && LinearFactor(l.modulus, l.expanded, y, start, s, c0, c1)
    case Times(left, right, c0, c1) =>
      && count > 1 && LinearFactors(l, left, y, s, start, count / 2)
      && LinearFactors(l, right, y, s, start + count / 2, count - count / 2)
      && Multiplied(l, left.c0, left.c1, right.c0, right.c1, s, c0, c1)
  }

  /** The factors carry the messages value - start, value - (start + 1), ... */
  predicate LinearMessages(tree: Product, value: int, start: nat, count: nat)
  {
    match tree
    case Factor(_, _, message) => count == 1 && message == value - start
    case Times(left, right, _, _) =>
      count > 1 && LinearMessages(left, value, start, count / 2) && LinearMessages(right, value, start + count / 2, count - count / 2)
  }

  /** The balanced product computes the falling product of its value. */
  lemma {:induction false} FactorsMessage(tree: Product, value: int, start: nat, count: nat)
    requires LinearMessages(tree, value, start, count)
    ensures Message(tree) == Falling(value, start, count)
    decreases tree
  {
    match tree
    case Factor(_, _, _) =>
      OneFactor(value, start);
    case Times(left, right, _, _) =>
      FactorsMessage(left, value, start, count / 2);
      FactorsMessage(right, value, start + count / 2, count - count / 2);
      FallingSplit(value, start, count / 2, count - count / 2);
  }

  /** Every factor of a projected coefficient is within the leaf bound. */
  ghost predicate FactorsFit(l: Lift.Ledger, y: Poly, s: Poly, value: int)
  {
    forall c, c0, c1 :: 0 <= c < l.base && LinearFactor(l.modulus, l.expanded, y, c, s, c0, c1) ==> Carries(l, c0, c1, s, value - c, l.leaf)
  }

  lemma LeafCarries(l: Lift.Ledger, y: Poly, value: int, c: nat, s: Poly, c0: Poly, c1: Poly)
    requires l.expanded * l.modulus > 0 && |y| == |s| == l.n > 0 && LeafFits(l, c)
    requires Noisy(y, Const(value, |y|), l.modulus, l.expanded, l.expanded * l.projection)
    requires LinearFactor(l.modulus, l.expanded, y, c, s, c0, c1)
    ensures Carries(l, c0, c1, s, value - c, l.leaf)
  {
    FactorNoise(l.modulus, l.expanded, y, value, c, s, c0, c1, l.expanded * l.projection, l.expanded * l.leaf);
    CarriesValue(l, c0, c1, s, value - c, l.leaf);
  }

  /** The linear factors of a projected coefficient are an evaluation the certificate covers. */
  lemma {:induction false} FactorsEvaluated(l: Lift.Ledger, tree: Product, y: Poly, s: Poly, start: nat, count: nat, value: int)
    requires FactorsFit(l, y, s, value) && start + count <= l.base
    requires LinearFactors(l, tree, y, s, start, count) && LinearMessages(tree, value, start, count)
    ensures Evaluated(l, tree, s, count)
    decreases tree
  {
    match tree
    case Factor(c0, c1, _) =>
    case Times(left, right, _, _) =>
      FactorsEvaluated(l, left, y, s, start, count / 2, value);
      FactorsEvaluated(l, right, y, s, start + count / 2, count - count / 2, value);
  }

  /** Every step of one coefficient: shift, trace, factors, product, and the sum with the projection. */
  ghost predicate Coefficient(l: Lift.Ledger, x: Poly, j: nat, value: int, s: Poly, zs: seq<Poly>, tree: Product, d: Poly)
  {
    && l.modulus > 0 && l.base >= 0 && j < |x| == |s| && Traced(Shifted(x, j), |x|, zs, l.modulus, l.switch)
    && |LastPhase(Shifted(x, j), zs)| == |s| == |tree.c0| == |tree.c1|
    && LinearFactors(l, tree, LastPhase(Shifted(x, j), zs), s, 0, l.base) && LinearMessages(tree, value, 0, l.base)
    && CongPoly(d, Add(LastPhase(Shifted(x, j), zs), Phase([tree.c0, tree.c1], s)), l.modulus)
  }

  /** A ledger whose leaf covers every factor and whose projection is the trace's error. */
  ghost predicate Covered(l: Lift.Ledger)
  {
    && Lift.Sound(l) && Regime(l) && Lift.PowerOfTwo(l.n) && l.expanded * l.modulus > 0
    && l.expanded * l.projection == TraceBound(l.n, l.expanded * l.phase, l.expanded * l.switch)
    && forall c :: 0 <= c < l.base ==> LeafFits(l, c)
  }

  lemma LedgerCovered(r: Lift.Record, baseBits: nat)
    requires baseBits > 0 && forall i :: 0 <= i < |r.primes| ==> r.primes[i] > 0
    requires Lift.MakeLedger(r, baseBits).Some?
    ensures Covered(Lift.MakeLedger(r, baseBits).value)
  {
    var l := Lift.MakeLedger(r, baseBits).value;
    Lift.LedgerSound(r, baseBits);
    LedgerRegime(r, baseBits);
    MulMono(1, l.expanded, l.modulus);
    ProjectionIsTrace(r, baseBits);
    forall c | 0 <= c < l.base
      ensures LeafFits(l, c)
    {
      LeafCovers(r, baseBits, c, 0);
    }
  }

  lemma Projected(l: Lift.Ledger, x: Poly, m: Poly, j: nat, zs: seq<Poly>) returns (y: Poly)
    requires Covered(l) && |x| == |m| == l.n && j < |x| && Noisy(x, m, l.modulus, l.expanded, l.expanded * l.phase)
    requires Traced(Shifted(x, j), |x|, zs, l.modulus, l.switch)
    ensures y == LastPhase(Shifted(x, j), zs) && |y| == l.n
    ensures Noisy(y, Const(l.n * m[j], l.n), l.modulus, l.expanded, l.expanded * l.projection)
  {
    MulNonNegative(l.expanded, l.phase);
    y := LastPhase(Shifted(x, j), zs);
    ProjectionNoise(x, m, j, zs, l.modulus, l.expanded, l.expanded * l.phase, l.switch);
    NoisyLength(y, Const(l.n * m[j], l.n), l.modulus, l.expanded, l.expanded * l.projection);
  }

  lemma FactorsWithin(l: Lift.Ledger, y: Poly, s: Poly, value: int)
    requires Covered(l) && |y| == |s| == l.n && Noisy(y, Const(value, |y|), l.modulus, l.expanded, l.expanded * l.projection)
    ensures FactorsFit(l, y, s, value)
  {
    forall c, c0, c1 | 0 <= c < l.base && LinearFactor(l.modulus, l.expanded, y, c, s, c0, c1)
      ensures Carries(l, c0, c1, s, value - c, l.leaf)
    {
      assert LeafFits(l, c);
      LeafCarries(l, y, value, c, s, c0, c1);
    }
  }

  /** The product of the factors, as a noisy phase of the falling product. */
  lemma ProductNoise(l: Lift.Ledger, tree: Product, y: Poly, s: Poly, value: int)
    requires Covered(l) && Ternary(s) && |y| == |s| == l.n
    requires Noisy(y, Const(value, |y|), l.modulus, l.expanded, l.expanded * l.projection)
    requires LinearFactors(l, tree, y, s, 0, l.base) && LinearMessages(tree, value, 0, l.base)
    requires Lift.Bounded(l, l.base).Admitted? && |tree.c0| == |tree.c1| == |s|
    ensures Noisy(Phase([tree.c0, tree.c1], s), Const(Falling(value, 0, l.base), l.n), l.modulus, l.expanded,
                  l.expanded * Lift.Bounded(l, l.base).error)
  {
    FactorsWithin(l, y, s, value);
    FactorsEvaluated(l, tree, y, s, 0, l.base, value);
    FactorsMessage(tree, value, 0, l.base);
    ProductCertified(l, tree, s, l.base);
    var e := Lift.Bounded(l, l.base).error;
    CarriesValue(l, tree.c0, tree.c1, s, Message(tree), e);
    ScalarError(Phase([tree.c0, tree.c1], s), Message(tree), l.modulus, l.expanded, l.expanded * e);
  }

  lemma DigitNoise(y: Poly, z: Poly, d: Poly, value: int, product: int, n: nat, q: int, t: int, projection: int, e: int)
    requires q > 0 && t > 0 && t * q > 0 && |y| == |z| == n > 0
    requires Noisy(y, Const(value, n), q, t, t * projection) && Noisy(z, Const(product, n), q, t, t * e)
    requires CongPoly(d, Add(y, z), q)
    ensures Noisy(d, Const(value + product, n), q, t, t * (projection + e))
  {
    NoisySum(y, Const(value, n), t * projection, z, Const(product, n), t * e, q, t);
    assert Add(Const(value, n), Const(product, n)) == Const(value + product, n);
    Distribute(t, projection, e);
    NoisyCong(Add(y, z), d, Const(value + product, n), q, t, t * (projection + e));
  }

  lemma CoefficientParts(l: Lift.Ledger, x: Poly, m: Poly, j: nat, value: int, s: Poly, zs: seq<Poly>, tree: Product, d: Poly)
    returns (y: Poly, z: Poly)
    requires Covered(l) && Ternary(s) && |x| == |m| == l.n && Noisy(x, m, l.modulus, l.expanded, l.expanded * l.phase)
    requires j < |x| && value == l.n * m[j] && Coefficient(l, x, j, value, s, zs, tree, d) && Lift.Bounded(l, l.base).Admitted?
    ensures |y| == |z| == l.n && CongPoly(d, Add(y, z), l.modulus)
    ensures Noisy(y, Const(value, l.n), l.modulus, l.expanded, l.expanded * l.projection)
    ensures Noisy(z, Const(Falling(value, 0, l.base), l.n), l.modulus, l.expanded, l.expanded * Lift.Bounded(l, l.base).error)
  {
    y := Projected(l, x, m, j, zs);
    z := Phase([tree.c0, tree.c1], s);
    ProductNoise(l, tree, y, s, value);
  }

  lemma DigitOf(l: Lift.Ledger, y: Poly, z: Poly, d: Poly, value: int, error: int)
    requires l.modulus > 0 && l.expanded > 0 && l.expanded * l.modulus > 0 && l.base >= 0 && |y| == |z| == l.n > 0
    requires Noisy(y, Const(value, l.n), l.modulus, l.expanded, l.expanded * l.projection)
    requires Noisy(z, Const(Falling(value, 0, l.base), l.n), l.modulus, l.expanded, l.expanded * error)
    requires CongPoly(d, Add(y, z), l.modulus)
    ensures Noisy(d, Const(SectionValue(value, l.base), l.n), l.modulus, l.expanded, l.expanded * (l.projection + error))
  {
    DigitNoise(y, z, d, value, Falling(value, 0, l.base), l.n, l.modulus, l.expanded, l.projection, error);
  }

  /** One digit: the section of the projected value, within the sum of the two errors. */
  lemma CoefficientNoise(l: Lift.Ledger, x: Poly, m: Poly, j: nat, value: int, s: Poly, zs: seq<Poly>, tree: Product, d: Poly, error: nat)
    requires Covered(l) && Ternary(s) && |x| == |m| == l.n && Noisy(x, m, l.modulus, l.expanded, l.expanded * l.phase)
    requires j < |x| && value == l.n * m[j] && Coefficient(l, x, j, value, s, zs, tree, d)
    requires Lift.Bounded(l, l.base) == Lift.Admitted(error)
    ensures Noisy(d, Const(SectionValue(value, l.base), l.n), l.modulus, l.expanded, l.expanded * (l.projection + error))
  {
    var y, z := CoefficientParts(l, x, m, j, value, s, zs, tree, d);
    DigitOf(l, y, z, d, value, error);
  }

  ghost predicate LiftRunRule(l: Lift.Ledger, x: Poly, m: Poly, s: Poly, zs: seq<seq<Poly>>, trees: seq<Product>, ds: seq<Poly>, out: Poly)
  {
    && l.modulus > 0 && |x| == |m| == |s| == |zs| == |trees| == |ds|
    && (forall j :: 0 <= j < |x| ==> |ds[j]| == |x| && Coefficient(l, x, j, |x| * m[j], s, zs[j], trees[j], ds[j]))
    && CongPoly(out, Reassembled(ds, |x|, |x|), l.modulus)
  }

  ghost predicate IsLiftRun(l: Lift.Ledger, x: Poly, m: Poly, s: Poly, zs: seq<seq<Poly>>, trees: seq<Product>, ds: seq<Poly>, out: Poly, b: bool)
  {
    forall t {:trigger Unfold(t)} :: Unfold(t) ==> b == LiftRunRule(l, x, m, s, zs, trees, ds, out)
  }

  /** The whole circuit: every coefficient, then the reassembly; unfolded by LiftRunValue. */
  ghost predicate LiftRun(l: Lift.Ledger, x: Poly, m: Poly, s: Poly, zs: seq<seq<Poly>>, trees: seq<Product>, ds: seq<Poly>, out: Poly)
  {
    assert IsLiftRun(l, x, m, s, zs, trees, ds, out, LiftRunRule(l, x, m, s, zs, trees, ds, out));
    var b :| IsLiftRun(l, x, m, s, zs, trees, ds, out, b);
    b
  }

  lemma LiftRunValue(l: Lift.Ledger, x: Poly, m: Poly, s: Poly, zs: seq<seq<Poly>>, trees: seq<Product>, ds: seq<Poly>, out: Poly)
    ensures LiftRun(l, x, m, s, zs, trees, ds, out) <==> LiftRunRule(l, x, m, s, zs, trees, ds, out)
  {
    assert Unfold(0);
  }

  /** F applied to n times every coefficient. */
  function SectionValues(m: Poly, p: nat): (r: Poly)
    ensures |r| == |m|
  {
    seq(|m|, j requires 0 <= j < |m| => SectionValue(|m| * m[j], p))
  }

  lemma DigitsNoise(l: Lift.Ledger, x: Poly, m: Poly, s: Poly, zs: seq<seq<Poly>>, trees: seq<Product>, ds: seq<Poly>, out: Poly, error: nat)
    returns (ms: seq<Poly>)
    requires Covered(l) && l.base >= 0 && Ternary(s) && |x| == l.n && LiftRun(l, x, m, s, zs, trees, ds, out)
    requires Noisy(x, m, l.modulus, l.expanded, l.expanded * l.phase) && Lift.Bounded(l, l.base) == Lift.Admitted(error)
    ensures |m| == |ms| == |ds| == l.n
    ensures forall j :: 0 <= j < |ds| ==> |ds[j]| == |ms[j]| == l.n && ms[j] == Const(SectionValues(m, l.base)[j], l.n)
    ensures forall j :: 0 <= j < |ds| ==> Noisy(ds[j], ms[j], l.modulus, l.expanded, l.expanded * (l.projection + error))
    ensures CongPoly(out, Reassembled(ds, l.n, l.n), l.modulus)
  {
    LiftRunValue(l, x, m, s, zs, trees, ds, out);
    ms := seq(|m|, j requires 0 <= j < |m| => Const(SectionValues(m, l.base)[j], l.n));
    forall j | 0 <= j < |ds|
      ensures Noisy(ds[j], ms[j], l.modulus, l.expanded, l.expanded * (l.projection + error))
    {
      CoefficientNoise(l, x, m, j, |x| * m[j], s, zs[j], trees[j], ds[j], error);
    }
  }

  lemma OutputNoise(l: Lift.Ledger, ds: seq<Poly>, ms: seq<Poly>, values: Poly, out: Poly, e: int)
    requires l.modulus > 0 && l.expanded > 0 && l.expanded * l.modulus > 0 && e >= 0
    requires 0 < l.n == |ds| == |ms| == |values|
    requires forall j :: 0 <= j < |ds| ==> |ds[j]| == |ms[j]| == l.n && ms[j] == Const(values[j], l.n)
    requires forall j :: 0 <= j < |ds| ==> Noisy(ds[j], ms[j], l.modulus, l.expanded, e)
    requires CongPoly(out, Reassembled(ds, l.n, l.n), l.modulus)
    ensures Noisy(out, values, l.modulus, l.expanded, l.n * e)
  {
    ReassemblyNoise(ds, ms, l.n, l.n, l.modulus, l.expanded, e);
    ReassembledConstants(values, ms, l.n, l.n);
    assert values[..l.n] + Zero(0) == values;
    NoisyCong(Reassembled(ds, l.n, l.n), out, values, l.modulus, l.expanded, l.n * e);
  }

  lemma NearestWithin(value: int, q: int, k: int)
    requires q > 0 && 2 * Abs(value - q * k) < q
    ensures Nearest(value, q) == k
  {
    DivModUnique(value + q / 2, q, k, value - q * k + q / 2);
  }

  /** A scaled error below half of the modulus decodes to the plaintext. */
  lemma DecodeWithin(x: int, m: int, q: int, t: int, v: int)
    requires q > 0 && t > 0 && t * q > 0 && Abs(Centered(t * x - q * m, t * q)) <= v && 2 * v < q
    ensures Cong(Nearest(t * x, q), m, t)
  {
    var k := ErrorWitness(x, m, q, t);
    Distribute(q, m, t * k);
    Exchange(q, t, k);
    Assoc(t, q, k);
    NearestWithin(t * x, q, m + t * k);
    CongFrom(m + t * k, m, t, k);
  }

  lemma RunNoise(l: Lift.Ledger, x: Poly, m: Poly, s: Poly, zs: seq<seq<Poly>>, trees: seq<Product>, ds: seq<Poly>, out: Poly, error: nat)
    requires Covered(l) && l.base >= 0 && Ternary(s) && |x| == l.n && LiftRun(l, x, m, s, zs, trees, ds, out)
    requires Noisy(x, m, l.modulus, l.expanded, l.expanded * l.phase) && Lift.Bounded(l, l.base) == Lift.Admitted(error)
    ensures Noisy(out, SectionValues(m, l.base), l.modulus, l.expanded, l.n * (l.expanded * (l.projection + error)))
  {
    var ms := DigitsNoise(l, x, m, s, zs, trees, ds, out, error);
    OutputOf(l, ds, ms, SectionValues(m, l.base), out, l.projection + error);
  }

  lemma OutputOf(l: Lift.Ledger, ds: seq<Poly>, ms: seq<Poly>, values: Poly, out: Poly, error: int)
    requires l.modulus > 0 && l.expanded > 0 && l.expanded * l.modulus > 0 && error >= 0
    requires 0 < l.n == |ds| == |ms| == |values|
    requires forall j :: 0 <= j < |ds| ==> |ds[j]| == |ms[j]| == l.n && ms[j] == Const(values[j], l.n)
    requires forall j :: 0 <= j < |ds| ==> Noisy(ds[j], ms[j], l.modulus, l.expanded, l.expanded * error)
    requires CongPoly(out, Reassembled(ds, l.n, l.n), l.modulus)
    ensures Noisy(out, values, l.modulus, l.expanded, l.n * (l.expanded * error))
  {
    MulNonNegative(l.expanded, error);
    OutputNoise(l, ds, ms, values, out, l.expanded * error);
  }

  /** An assessment admits n times the sum of the projection and the product. */
  lemma AssessedError(l: Lift.Ledger) returns (error: nat)
    requires Lift.Sound(l) && Lift.Assess(l).Admitted?
    ensures Lift.Bounded(l, l.base) == Lift.Admitted(error)
    ensures Lift.Assess(l).error == l.n * (l.projection + error) < l.half
  {
    error := Lift.Bounded(l, l.base).error;
  }

  lemma AdmittedRun(l: Lift.Ledger, x: Poly, m: Poly, s: Poly, zs: seq<seq<Poly>>, trees: seq<Product>, ds: seq<Poly>, out: Poly)
    requires Covered(l) && l.base >= 0 && Ternary(s) && |x| == l.n && LiftRun(l, x, m, s, zs, trees, ds, out)
    requires Noisy(x, m, l.modulus, l.expanded, l.expanded * l.phase) && Lift.Assess(l).Admitted?
    ensures Noisy(out, SectionValues(m, l.base), l.modulus, l.expanded, l.expanded * Lift.Assess(l).error)
  {
    var error := AssessedError(l);
    RunNoise(l, x, m, s, zs, trees, ds, out, error);
    Exchange(l.n, l.expanded, l.projection + error);
  }

  lemma DecodeNoisy(out: Poly, values: Poly, q: int, t: int, v: int)
    requires q > 0 && t > 0 && t * q > 0 && 2 * v < q && Noisy(out, values, q, t, v)
    ensures WithinError(out, values, q, t, v) && forall i :: 0 <= i < |out| ==> Cong(Nearest(t * out[i], q), values[i], t)
  {
    NoisyIsWithin(out, values, q, t, v);
    forall i | 0 <= i < |out|
      ensures Cong(Nearest(t * out[i], q), values[i], t)
    {
      DecodeWithin(out[i], values[i], q, t, v);
    }
  }

  /**
   The verdict is sound. Whenever the assessment admits a record, every run of the lift
   on a phase within the ledger's error, under every ternary secret, ends with a scaled
   error of at most base*base times the admitted bound. That is below half of the
   modulus, so the output decodes to F of n times every coefficient.
   */
  lemma LiftCertified(r: Lift.Record, baseBits: nat, x: Poly, m: Poly, s: Poly, zs: seq<seq<Poly>>, trees: seq<Product>,
                      ds: seq<Poly>, out: Poly)
    requires baseBits > 0 && forall i :: 0 <= i < |r.primes| ==> r.primes[i] > 0
    requires Lift.MakeLedger(r, baseBits).Some? && Ternary(s) && |x| == r.n
    requires var l := Lift.MakeLedger(r, baseBits).value;
             && Lift.Sound(l) && Lift.Assess(l).Admitted? && LiftRun(l, x, m, s, zs, trees, ds, out)
             && l.expanded * l.modulus > 0 && WithinError(x, m, l.modulus, l.expanded, l.expanded * l.phase)
    ensures var q, t, e := ListProduct(r.primes), r.base * r.base, Lift.Assess(Lift.MakeLedger(r, baseBits).value).error;
            && t * q > 0 && 2 * (t * e) < q && WithinError(out, SectionValues(m, r.base), q, t, t * e)
            && forall i :: 0 <= i < |out| ==> Cong(Nearest(t * out[i], q), SectionValues(m, r.base)[i], t)
  {
    var l := Lift.MakeLedger(r, baseBits).value;
    LedgerCovered(r, baseBits);
    NoisyIsWithin(x, m, l.modulus, l.expanded, l.expanded * l.phase);
    AdmittedRun(l, x, m, s, zs, trees, ds, out);
    var error := AssessedError(l);
    AdmittedFits(l.expanded, l.half, l.modulus, Lift.Assess(l).error);
    DecodeNoisy(out, SectionValues(m, r.base), l.modulus, l.expanded, l.expanded * Lift.Assess(l).error);
  }

  /**
   The lift is the canonical section: for a prime base and a phase preconditioned by
   the inverse of n, the output decodes to the low digit of every coefficient.
   */
  lemma LiftLowDigits(r: Lift.Record, baseBits: nat, x: Poly, m: Poly, w: Poly, s: Poly, zs: seq<seq<Poly>>, trees: seq<Product>,
                      ds: seq<Poly>, out: Poly)
    requires baseBits > 0 && forall i :: 0 <= i < |r.primes| ==> r.primes[i] > 0
    requires Lift.MakeLedger(r, baseBits).Some? && Ternary(s) && |x| == r.n && Prime(r.base)
    requires var l := Lift.MakeLedger(r, baseBits).value;
             && Lift.Sound(l) && Lift.Assess(l).Admitted? && LiftRun(l, x, m, s, zs, trees, ds, out)
             && l.expanded * l.modulus > 0 && WithinError(x, m, l.modulus, l.expanded, l.expanded * l.phase)
    requires r.base * r.base > 0 && |w| == |m| && forall j :: 0 <= j < |m| ==> Cong(r.n * m[j], w[j], r.base * r.base)
    ensures ListProduct(r.primes) > 0
    ensures |out| == |w| && forall j :: 0 <= j < |w| ==> Cong(Nearest(r.base * r.base * out[j], ListProduct(r.primes)), w[j] % r.base, r.base * r.base)
  {
    LiftCertified(r, baseBits, x, m, s, zs, trees, ds, out);
    forall j | 0 <= j < |w|
      ensures Cong(Nearest(r.base * r.base * out[j], ListProduct(r.primes)), w[j] % r.base, r.base * r.base)
    {
      DigitOfClass(r.n * m[j], w[j], r.base);
    }
  }

  lemma DigitOfClass(x: int, w: int, p: nat)
    requires Prime(p) && p * p > 0 && Cong(x, w, p * p)
    ensures Cong(SectionValue(x, p), w % p, p * p)
  {
    LowDigit(x, p);
    CongDivisor(x, w, p, p);
    CongMod(x, w, p);
  }
}
