/**
 The bounded refresh in the clear: expand an exhausted ciphertext to modulus
 p*p, remove the bounded low digit with the constructed polynomial and divide
 by p. When the radius condition holds, every coefficient of the message comes
 back exactly.
 */
module BoundedRefresh {
  import opened Arith
  import opened Units
  import opened Vectors
  import opened Polynomials
  import opened Negacyclic
  import opened NoiseOracle
  import opened CarryBridge
  import opened DigitPolynomial
  import opened DigitRadius
  import opened Wrappers

  /** The digit above the removed low digit of w. */
  function HighDigit(f: Poly, w: int, p: int): int
    requires p > 0 && p * p > 0
  {
    (w - Evaluate(f, w, p * p)) % (p * p) / p
  }

  /** A certified polynomial removes any low digit within its support. */
  lemma DigitRemoved(f: Poly, p: int, bound: int, w: int, m: int, rho: int)
    requires p > 0 && p * p > 0 && Certify(f, p, bound)
    requires Abs(rho) <= bound && Cong(w, p * m + rho, p * p)
    ensures Cong(Eval(f, w), rho, p * p) && Cong(w - Eval(f, w), p * m, p * p)
    ensures HighDigit(f, w, p) == m % p
  {
    EvalPointCong(f, w, rho + p * m, p * p);
    CertifiedPoint(f, p, bound, rho, m);
    CongSub(w, p * m + rho, Eval(f, w), rho, p * p);
    EvaluateIsEval(f, w, p * p);
    HighDigitOf(w, Eval(f, w), m, p);
  }

  lemma HighDigitOf(w: int, e: int, m: int, p: int)
    requires p > 0 && p * p > 0 && Cong(w - e, p * m, p * p)
    ensures (w - e % (p * p)) % (p * p) / p == m % p
  {
    var n := p * p;
    ModCong(e, n);
    CongSub(w, w, e % n, e, n);
    CongMod(w - e % n, p * m, n);
    // p*m mod p*p = p*(m mod p)
    var d, r := m / p, m % p;
    Assoc(p, p, d);
    Distribute(p, p * d, r);
    MulMono(r + 1, p, p);
    Distribute(p, r, 1);
    MulMono(0, r, p);
    DivModUnique(p * m, n, d, p * r);
    DivModUnique(p * r, p, r, 0);
  }

  /**
   End to end: if the radius condition holds for the parameters, then for every
   ciphertext of the ring degree under a ternary secret, within the history
   bound v of its message vector, the constructed polynomial recovers every
   message coefficient modulo p from the expanded phase.
   */
  lemma RefreshRecovers(c0: Poly, c1: Poly, s: Poly, m: Poly, f: Poly, q: int, p: int, v: int, bound: int, j: nat)
    requires SupportsBoundedDigit(q, p, |s|, v, bound) == Ok(true)
    requires p * q > 0 && p * p > 0
    requires j < |c0| == |c1| == |s| && Ternary(s)
    requires WithinError(Affine(c0, c1, s), m, q, p, v)
    requires Certify(f, p, bound)
    ensures HighDigit(f, Affine(ScaleRound(c0, q, p * p), ScaleRound(c1, q, p * p), s)[j], p) == m[j] % p
  {
    L1Bound(s, 1);
    var rho := ExpansionSound(c0, c1, s, m, q, p, |s|, v, j);
    DigitRemoved(f, p, bound, Affine(ScaleRound(c0, q, p * p), ScaleRound(c1, q, p * p), s)[j], m[j], rho);
  }

  /** The whole refresh, from parameters to recovered messages. */
  method Refresh(c0: Poly, c1: Poly, s: Poly, q: int, p: int, v: int, bound: int, ghost m: Poly)
    returns (result: Result<Poly>)
    requires |c0| == |c1| == |s| > 0 && Ternary(s) && q > 0
    requires p > 0 ==> p * q > 0 && WithinError(Affine(c0, c1, s), m, q, p, v)
    ensures result.Ok? <==> Prime(p) && p != 2 && SupportsBoundedDigit(q, p, |s|, v, bound) == Ok(true)
    ensures result.Ok? ==> |result.value| == |m| && forall j :: 0 <= j < |m| ==> result.value[j] == m[j] % p
  {
    if SupportsBoundedDigit(q, p, |s|, v, bound) != Ok(true) {
      return Err;
    }
    var constructed := Construct(p, bound);
    match constructed
    case Err =>
      return Err;
    case Ok(f) =>
      var a0, a1 := ScaleRound(c0, q, p * p), ScaleRound(c1, q, p * p);
      var product := MulLoops(a1, s);
      var w := Add(a0, product);
      var digits := [];
      for j := 0 to |s|
        invariant |digits| == j
        invariant forall i :: 0 <= i < j ==> digits[i] == m[i] % p
      {
        RefreshRecovers(c0, c1, s, m, f, q, p, v, bound, j);
        digits := digits + [HighDigit(f, w[j], p)];
      }
      return Ok(digits);
  }

  /** The second base-p digit of y: dividing the residue modulo n = p*p, or dividing first. */
  lemma TwoDigits(y: int, p: int, n: int)
    requires p > 0 && n == p * p && n > 0
    ensures var x := y % n; (x - x % p) / p == y / p % p
  {
    var x := y % n;
    var c, d, r := y / n, x / p, x % p;
    SplitDigits(y, p, n, c, d, r);
    DigitBelow(x, p, n, d, r);
    DivModUnique(y, p, p * c + d, r);
    DivModUnique(p * c + d, p, c, d);
    DivModUnique(x - r, p, d, 0);
  }

  lemma DigitBelow(x: int, p: int, n: int, d: int, r: int)
    requires p > 0 && n == p * p && 0 <= x < n && x == p * d + r && 0 <= r < p
    ensures 0 <= d < p
  {
    CancelLess(p, d, p);
    CancelLess(p, -1, d);
  }

  lemma SplitDigits(y: int, p: int, n: int, c: int, d: int, r: int)
    requires n == p * p && y == n * c + (p * d + r)
    ensures y == p * (p * c + d) + r
  {
    Assoc(p, p, c);
    Distribute(p, p * c, d);
  }

  /** The shift by p/2 turns rounding into truncation, whatever the winding modulo p*p. */
  lemma PrimePowerContraction(w: int, p: int, k: int)
    requires p >= 3 && p % 2 == 1 && p * p > 0
    ensures var x := (w + p / 2) % (p * p); (x - x % p) / p == Nearest(w, p) % p
    ensures Nearest(w + k * (p * p), p) % p == Nearest(w, p) % p
  {
    TwoDigits(w + p / 2, p, p * p);
    Exchange(k, p, p);
    NearestShift(w, k * p, p);
    CongFrom(Nearest(w, p) + p * k, Nearest(w, p), p, k);
    CongMod(Nearest(w, p) + p * k, Nearest(w, p), p);
  }
}
