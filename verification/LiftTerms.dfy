/**
 Where the first terms of the canonical-lift ledger come from: the error of a key switch
 from its gadget digits, and the error of a fresh expanded phase from the encapsulated
 key. Each term bounds the error of its step and is reached, or is the least such integer.
 */
module LiftTerms {
  import opened Arith
  import opened Vectors
  import opened Negacyclic
  import opened CarryBridge
  import opened DigitRadius
  import opened LiftNoise
  import Lift = LiftFeasibility

  // --------------------------------------------------------------- the gadget digits

  /** The digits of a lane are the least number of digits of the given width that hold its prime. */
  lemma LaneDigitsLeast(prime: nat, baseBits: nat, d: nat)
    requires prime > 0 && baseBits > 0
    ensures CeilDiv(Lift.BitLength(prime), baseBits) <= d <==> prime < Pow(2, baseBits * d)
  {
    var bits := Lift.BitLength(prime);
    Lift.BitLengthBounds(prime);
    CeilLeast(bits, baseBits, d);
    if bits <= baseBits * d {
      Lift.PowTwoMono(bits, baseBits * d);
    } else {
      Lift.PowTwoMono(baseBits * d, bits - 1);
    }
  }

  /** Enough digits in every lane. */
  predicate Holds(ds: seq<nat>, primes: seq<int>, baseBits: nat)
  {
    |ds| == |primes| && forall i :: 0 <= i < |primes| ==> primes[i] < Pow(2, baseBits * ds[i])
  }

  /** The total is reached by lists that hold every lane, and by no smaller one. */
  lemma {:induction false} DigitSumLeast(primes: seq<int>, baseBits: nat, ds: seq<nat>) returns (least: seq<nat>)
    requires baseBits > 0 && forall i :: 0 <= i < |primes| ==> primes[i] > 0
    ensures Holds(least, primes, baseBits) && Sum(least) == Lift.DigitSum(primes, baseBits)
    ensures Holds(ds, primes, baseBits) ==> Lift.DigitSum(primes, baseBits) <= Sum(ds)
  {
    if |primes| == 0 {
      least := [];
    } else {
      var last := |primes| - 1;
      var front := DigitSumLeast(primes[..last], baseBits, if |ds| == |primes| then ds[..last] else []);
      var d := CeilDiv(Lift.BitLength(primes[last]), baseBits);
      DivNonNegative(Lift.BitLength(primes[last]) + baseBits - 1, baseBits);
      LaneDigitsLeast(primes[last], baseBits, d);
      least := front + [d];
      assert least[..last] == front;
      if Holds(ds, primes, baseBits) {
        LaneDigitsLeast(primes[last], baseBits, ds[last]);
        assert Holds(ds[..last], primes[..last], baseBits);
      }
    }
  }

  // ---------------------------------------------------------------- the key switch

  /** The error of a gadget key switch: every digit polynomial times the error of its key. */
  ghost function GadgetError(digits: seq<Poly>, errors: seq<Poly>, n: nat): (r: Poly)
    requires |digits| == |errors| && forall i :: 0 <= i < |errors| ==> |errors[i]| == n
    ensures |r| == n
  {
    if |digits| == 0 then Zero(n)
    else
      var last := |digits| - 1;
      Add(GadgetError(digits[..last], errors[..last], n), Mul(digits[last], errors[last]))
  }

  /** Digits at most y and errors at most eta, all of degree n. */
  ghost predicate Gadget(digits: seq<Poly>, errors: seq<Poly>, n: nat, y: int, eta: int)
  {
    && |digits| == |errors|
    && forall i :: 0 <= i < |errors| ==> |digits[i]| == |errors[i]| == n && Bounded(digits[i], y) && Bounded(errors[i], eta)
  }

  lemma {:induction false} GadgetSum(digits: seq<Poly>, errors: seq<Poly>, n: nat, w: int)
    requires |digits| == |errors| && forall i :: 0 <= i < |errors| ==> |errors[i]| == n
    requires forall i :: 0 <= i < |digits| ==> Bounded(Mul(digits[i], errors[i]), w)
    ensures Bounded(GadgetError(digits, errors, n), |digits| * w)
  {
    if |digits| > 0 {
      var last := |digits| - 1;
      GadgetSum(digits[..last], errors[..last], n, w);
      AddBounded(GadgetError(digits[..last], errors[..last], n), Mul(digits[last], errors[last]), last * w, w);
      Distribute(w, last, 1);
    }
  }

  lemma GadgetBounded(digits: seq<Poly>, errors: seq<Poly>, n: nat, y: int, eta: int)
    requires eta >= 0 && Gadget(digits, errors, n, y, eta)
    ensures Bounded(GadgetError(digits, errors, n), |digits| * (n * y * eta))
  {
    forall i | 0 <= i < |digits|
      ensures Bounded(Mul(digits[i], errors[i]), n * y * eta)
    {
      MulBoundedInf(digits[i], errors[i], y, eta);
    }
    GadgetSum(digits, errors, n, n * y * eta);
  }

  /** Constant digits against constant errors add up at the top coefficient. */
  lemma TopProduct(y: int, eta: int, n: nat)
    requires n > 0
    ensures Mul(Constant(y, n), Constant(eta, n))[n - 1] == n * y * eta
  {
    assert Constant(eta, n) == Scale(eta, Ones(n, n));
    MulScaleRight(Constant(y, n), eta, Ones(n, n));
    OnesAction(y, n, n);
    assert Mul(Constant(y, n), Constant(eta, n))[n - 1] == eta * (n * y);
  }

  lemma {:induction false} GadgetReached(count: nat, n: nat, y: int, eta: int) returns (digits: seq<Poly>, errors: seq<Poly>)
    requires n > 0 && y >= 0 && eta >= 0
    ensures |digits| == count && Gadget(digits, errors, n, y, eta)
    ensures GadgetError(digits, errors, n)[n - 1] == count * (n * y * eta)
  {
    if count == 0 {
      digits, errors := [], [];
    } else {
      var ds, es := GadgetReached(count - 1, n, y, eta);
      digits, errors := ds + [Constant(y, n)], es + [Constant(eta, n)];
      GadgetNext(ds, es, n, y, eta);
      Distribute(n * y * eta, count - 1, 1);
    }
  }

  /** One more digit of the extreme gadget. */
  lemma GadgetNext(ds: seq<Poly>, es: seq<Poly>, n: nat, y: int, eta: int)
    requires n > 0 && y >= 0 && eta >= 0 && Gadget(ds, es, n, y, eta)
    ensures Gadget(ds + [Constant(y, n)], es + [Constant(eta, n)], n, y, eta)
    ensures GadgetError(ds + [Constant(y, n)], es + [Constant(eta, n)], n)[n - 1] == GadgetError(ds, es, n)[n - 1] + n * y * eta
  {
    var digits, errors := ds + [Constant(y, n)], es + [Constant(eta, n)];
    assert digits[..|ds|] == ds && errors[..|ds|] == es;
    TopProduct(y, eta, n);
  }

  /**
   The switch term: with the least number of digits that holds every lane, every key
   switch errs by at most l.switch, and some key switch errs by exactly that much.
   */
  lemma SwitchLaw(r: Lift.Record, baseBits: nat, digits: seq<Poly>, errors: seq<Poly>) returns (worst: seq<Poly>, noise: seq<Poly>)
    requires baseBits > 0 && forall i :: 0 <= i < |r.primes| ==> r.primes[i] > 0
    requires Lift.MakeLedger(r, baseBits).Some?
    ensures var l := Lift.MakeLedger(r, baseBits).value;
            && Gadget(worst, noise, r.n, Pow(2, baseBits) - 1, r.eta) && |worst| == Lift.DigitSum(r.primes, baseBits)
            && GadgetError(worst, noise, r.n)[r.n - 1] == l.switch
            && (|digits| <= Lift.DigitSum(r.primes, baseBits) && Gadget(digits, errors, r.n, Pow(2, baseBits) - 1, r.eta) ==>
                Bounded(GadgetError(digits, errors, r.n), l.switch))
  {
    var n, y, count := r.n, Pow(2, baseBits) - 1, Lift.DigitSum(r.primes, baseBits);
    PowPositive(2, baseBits);
    Lift.DigitSumPositive(r.primes, baseBits);
    worst, noise := GadgetReached(count, n, y, r.eta);
    SwitchProduct(r.eta, n, y, count);
    if |digits| <= count && Gadget(digits, errors, n, y, r.eta) {
      GadgetBounded(digits, errors, n, y, r.eta);
      MulNonNegative(n, y);
      MulNonNegative(n * y, r.eta);
      MulMono(|digits|, count, n * y * r.eta);
    }
  }

  lemma SwitchProduct(eta: int, n: int, y: int, count: int)
    ensures eta * n * y * count == count * (n * y * eta)
  {
    Assoc(eta, n, y);
    assert eta * (n * y) == n * y * eta;
  }

  // ----------------------------------------------------------------- the fresh phase

  /** The noise e0 + e1*s + e2*u of an encryption of zero. */
  ghost function KeyNoise(e0: Poly, e1: Poly, s: Poly, e2: Poly, u: Poly): (r: Poly)
    requires |e0| == |e1| == |s| == |e2| == |u|
    ensures |r| == |e0|
  {
    Add(Add(e0, Mul(e1, s)), Mul(e2, u))
  }

  /** Three sampled errors against ternary secrets: at most eta*(2n + 1). */
  lemma KeyNoiseBounded(e0: Poly, e1: Poly, s: Poly, e2: Poly, u: Poly, eta: int)
    requires |e0| == |e1| == |s| == |e2| == |u| && eta >= 0 && Ternary(s) && Ternary(u)
    requires Bounded(e0, eta) && Bounded(e1, eta) && Bounded(e2, eta)
    ensures Bounded(KeyNoise(e0, e1, s, e2, u), eta * (2 * |e0| + 1))
  {
    var n := |e0|;
    TernaryNoise(e1, s, eta);
    TernaryNoise(e2, u, eta);
    AddBounded(e0, Mul(e1, s), eta, n * eta);
    AddBounded(Add(e0, Mul(e1, s)), Mul(e2, u), eta + n * eta, n * eta);
    Distribute(eta, 2 * n, 1);
    Exchange(eta, 2, n);
    assert n * eta == eta * n;
  }

  lemma TernaryNoise(e: Poly, s: Poly, eta: int)
    requires |e| == |s| && Ternary(s) && eta >= 0 && Bounded(e, eta)
    ensures Bounded(Mul(e, s), |e| * eta)
  {
    MulComm(e, s);
    assert Bounded(s, 1);
    MulBoundedInf(s, e, 1, eta);
    assert |s| * 1 == |s|;
  }

  /** Against secrets of ones the top coefficient reaches eta*(2n + 1). */
  lemma KeyNoiseReached(n: nat, eta: int)
    requires n > 0
    ensures Ternary(Ones(n, n))
    ensures KeyNoise(Constant(eta, n), Constant(eta, n), Ones(n, n), Constant(eta, n), Ones(n, n))[n - 1] == eta * (2 * n + 1)
  {
    OnesAction(eta, n, n);
    Distribute(eta, 2 * n, 1);
    Exchange(eta, 2, n);
    assert n * eta == eta * n;
  }

  /**
   The phase term bounds the scaled error of an expanded phase: centered components
   a0 and a1, and an encapsulated ternary key whose noise comes from three samples of
   magnitude at most eta.
   */
  lemma PhaseLaw(r: Lift.Record, baseBits: nat, a0: Poly, a1: Poly, inner: Poly, key: Poly, phase: Poly,
                 e0: Poly, e1: Poly, s: Poly, e2: Poly, u: Poly)
    requires baseBits > 0 && forall i :: 0 <= i < |r.primes| ==> r.primes[i] > 0
    requires Lift.MakeLedger(r, baseBits).Some?
    requires |a0| == |a1| == |inner| == |key| == |phase| == |e0| == |e1| == |s| == |e2| == |u| == r.n
    requires Ternary(inner) && Ternary(s) && Ternary(u) && Bounded(e0, r.eta) && Bounded(e1, r.eta) && Bounded(e2, r.eta)
    requires var l := Lift.MakeLedger(r, baseBits).value;
             && l.modulus > 0 && l.expanded > 0 && l.expanded * l.modulus > 0
             && HalfBounded(a0, l.expanded - 1) && HalfBounded(a1, l.expanded - 1)
             && CongPoly(key, Add(Scale(l.modulus / l.expanded, inner), KeyNoise(e0, e1, s, e2, u)), l.modulus)
             && CongPoly(phase, Add(Scale(l.modulus / l.expanded, a0), Mul(a1, key)), l.modulus)
    ensures var l := Lift.MakeLedger(r, baseBits).value;
            WithinError(phase, Affine(a0, a1, inner), l.modulus, l.expanded, l.expanded * l.phase)
  {
    var l := Lift.MakeLedger(r, baseBits).value;
    var e := KeyNoise(e0, e1, s, e2, u);
    var sum := PhaseTermCovers(r, baseBits, 0);
    KeyNoiseBounded(e0, e1, s, e2, u, r.eta);
    PhaseWithin(a0, a1, inner, key, e, phase, l.modulus, l.expanded, r.n, r.eta * (2 * r.n + 1));
    WithinWeaken(phase, Affine(a0, a1, inner), l.modulus, l.expanded, sum, l.expanded * l.phase);
  }

  /**
   The phase term is the least integer at or above the key noise against the largest
   multiplier, one remainder for each of the n + 1 wraps, and half a remainder for the
   decoding grid; it covers the sum of the actual errors.
   */
  lemma PhaseTermCovers(r: Lift.Record, baseBits: nat, d: int) returns (sum: int)
    requires baseBits > 0 && forall i :: 0 <= i < |r.primes| ==> r.primes[i] > 0
    requires Lift.MakeLedger(r, baseBits).Some?
    ensures var l := Lift.MakeLedger(r, baseBits).value;
            && l.expanded > 0
            && sum == PhaseSum(l.modulus % l.expanded, l.expanded, r.n, (l.expanded - 1) / 2, r.eta * (2 * r.n + 1))
            && sum <= l.expanded * l.phase
            && (l.phase <= d <==>
                2 * (r.eta * (2 * r.n + 1) * r.n * ((l.expanded - 1) / 2)) + 2 * (l.modulus % l.expanded * (r.n + 1)) + l.modulus % l.expanded <= 2 * d)
  {
    var l := Lift.MakeLedger(r, baseBits).value;
    LedgerPhase(r, baseBits);
    OddHalf(r.base, l.expanded);
    sum := PhaseFacts(l.modulus % l.expanded, l.expanded, r.n, (l.expanded - 1) / 2, r.eta * (2 * r.n + 1), l.phase, d);
  }

  lemma PhaseFacts(rest: int, t: int, n: int, half: int, beta: int, phase: int, d: int) returns (sum: int)
    requires 0 <= rest && t == 2 * half + 1 && half >= 0 && n >= 0
    requires phase == beta * n * half + rest * (n + 1) + CeilDiv(rest, 2)
    ensures sum == PhaseSum(rest, t, n, half, beta) && sum <= t * phase
    ensures phase <= d <==> 2 * (beta * n * half) + 2 * (rest * (n + 1)) + rest <= 2 * d
  {
    sum := PhaseSum(rest, t, n, half, beta);
    PhaseTerm(rest, t, n, half, beta, phase);
    PhaseLeast(beta * n * half, rest * (n + 1), rest, phase, d);
  }

  lemma LedgerPhase(r: Lift.Record, baseBits: nat)
    requires baseBits > 0 && forall i :: 0 <= i < |r.primes| ==> r.primes[i] > 0
    requires Lift.MakeLedger(r, baseBits).Some?
    ensures var l := Lift.MakeLedger(r, baseBits).value;
            && l.expanded == r.base * r.base > 0 && r.n >= 0 && r.base >= 3 && r.base % 2 == 1
            && l.phase == r.eta * (2 * r.n + 1) * r.n * ((l.expanded - 1) / 2) + l.modulus % l.expanded * (r.n + 1)
                          + CeilDiv(l.modulus % l.expanded, 2)
  {
  }

  lemma OddHalf(p: int, t: int)
    requires p >= 3 && p % 2 == 1 && t == p * p
    ensures t == 2 * ((t - 1) / 2) + 1 && t >= 3
  {
    OddSquare(p);
  }

  lemma PhaseLeast(x: int, y: int, rest: int, phase: int, d: int)
    requires phase == x + y + CeilDiv(rest, 2)
    ensures phase <= d <==> 2 * x + 2 * y + rest <= 2 * d
  {
  }

  /** The scaled error of a0 + a1*key for centered components and key noise beta. */
  function PhaseSum(rest: int, t: int, n: int, half: int, beta: int): int
  {
    t * (n * half * beta) + rest * (half + half * n)
  }

  lemma WithinWeaken(x: Poly, m: Poly, q: int, p: int, v: int, w: int)
    requires p * q > 0 && WithinError(x, m, q, p, v) && v <= w
    ensures WithinError(x, m, q, p, w)
  {
  }

  lemma PhaseWithin(a0: Poly, a1: Poly, s: Poly, key: Poly, e: Poly, phase: Poly, q: int, t: int, n: nat, beta: int)
    requires q > 0 && t > 0 && t * q > 0 && beta >= 0 && 0 < n == |a0| == |a1| == |s| == |key| == |e| == |phase|
    requires Ternary(s) && Bounded(e, beta) && HalfBounded(a0, t - 1) && HalfBounded(a1, t - 1)
    requires CongPoly(key, Add(Scale(q / t, s), e), q) && CongPoly(phase, Add(Scale(q / t, a0), Mul(a1, key)), q)
    ensures WithinError(phase, Affine(a0, a1, s), q, t, PhaseSum(q % t, t, n, (t - 1) / 2, beta))
  {
    var half, w, noise := (t - 1) / 2, Affine(a0, a1, s), Mul(a1, e);
    OuterPhase(a0, a1, s, key, e, phase, q, q / t);
    MulBoundedInf(a1, e, half, beta);
    TernaryNoise(a1, s, half);
    AddBounded(a0, Mul(a1, s), half, n * half);
    assert n * half == half * n;
    OuterWithin(phase, w, noise, q, t, q / t, n * half * beta, half + half * n);
  }

  /** The code's phase term covers the sum, in units of the grid. */
  lemma PhaseTerm(rest: int, t: int, n: int, half: int, beta: int, phase: int)
    requires 0 <= rest && t == 2 * half + 1 && half >= 0 && n >= 0
    requires phase == beta * n * half + rest * (n + 1) + CeilDiv(rest, 2)
    ensures PhaseSum(rest, t, n, half, beta) <= t * phase
  {
    var extra := rest * (n + 1) + CeilDiv(rest, 2);
    Distribute(half, 1, n);
    assert half + half * n == half * (n + 1);
    MulMono(half, t, n + 1);
    MulMono(half * (n + 1), t * (n + 1), rest);
    Exchange(rest, t, n + 1);
    Assoc(beta, n, half);
    assert n * half * beta == beta * (n * half);
    Distribute(t, beta * (n * half), extra);
    Distribute(t, rest * (n + 1), CeilDiv(rest, 2));
    MulNonNegative(t, CeilDiv(rest, 2));
  }
}
