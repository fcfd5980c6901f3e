/**
 The 11-adic Frobenius section of Z/121[X]/(X^n + 1): the eleventh power followed
 by the automorphism X -> X^(1/11). It lifts reduction modulo 11 and ignores
 every multiple of 11 added to its argument.
 */
module FrobeniusSection {
  import opened Arith
  import opened Units
  import opened Binomial
  import opened Vectors
  import opened Negacyclic
  import opened Wrappers

  const BASE := 11
  const T := 121

  // --------------------------------------------------------- binomial expansion

  /** One row of Pascal's triangle from the previous one. */
  function NextRow(row: Poly): (r: Poly)
    ensures |r| == |row| + 1
  {
    Add(row + [0], [0] + row)
  }

  function PascalRow(m: nat): (r: Poly)
    ensures |r| == m + 1
  {
    seq(m + 1, i requires 0 <= i < m + 1 => Choose(m, i))
  }

  lemma PascalNext(m: nat)
    requires m > 0
    ensures PascalRow(m) == NextRow(PascalRow(m - 1))
  {
    ChooseAbove(m - 1, m);
  }

  /** The homogeneous form row[0]*u^m + row[1]*u^(m-1)*v + ... + row[m]*v^m. */
  ghost function Form(row: Poly, u: Poly, v: Poly): (r: Poly)
    requires |u| == |v| > 0 && |row| > 0
    ensures |r| == |u|
    decreases |row|
  {
    var m := |row| - 1;
    if m == 0 then Const(row[0], |u|)
    else Add(Scale(row[0], RingPower(u, m)), Mul(v, Form(row[1..], u, v)))
  }

  lemma {:induction false} FormAdd(a: Poly, b: Poly, u: Poly, v: Poly)
    requires |u| == |v| > 0 && |a| == |b| > 0
    ensures Form(Add(a, b), u, v) == Add(Form(a, u, v), Form(b, u, v))
    decreases |a|
  {
    if |a| == 1 {
      assert Const(a[0] + b[0], |u|) == Add(Const(a[0], |u|), Const(b[0], |u|));
    } else {
      var s, t := a[1..], b[1..];
      FormAdd(s, t, u, v);
      assert Add(a, b)[1..] == Add(s, t);
      var p := RingPower(u, |a| - 1);
      ScaleSum(a[0], b[0], p);
      MulAddRight(v, Form(s, u, v), Form(t, u, v));
      AddSwap(Scale(a[0], p), Scale(b[0], p), Mul(v, Form(s, u, v)), Mul(v, Form(t, u, v)));
    }
  }

  lemma {:induction false} FormScale(c: int, a: Poly, u: Poly, v: Poly)
    requires |u| == |v| > 0 && |a| > 0
    ensures Form(Scale(c, a), u, v) == Scale(c, Form(a, u, v))
    decreases |a|
  {
    if |a| == 1 {
      assert Const(c * a[0], |u|) == Scale(c, Const(a[0], |u|));
    } else {
      var t := a[1..];
      FormScale(c, t, u, v);
      assert Scale(c, a)[1..] == Scale(c, t);
      var p := RingPower(u, |a| - 1);
      ScaleScale(c, a[0], p);
      MulScaleRight(v, c, Form(t, u, v));
      ScaleAdd(c, Scale(a[0], p), Mul(v, Form(t, u, v)));
    }
  }

  /** A leading zero multiplies the form by v. */
  lemma FormLead(row: Poly, u: Poly, v: Poly)
    requires |u| == |v| > 0 && |row| > 0
    ensures Form([0] + row, u, v) == Mul(v, Form(row, u, v))
  {
    assert ([0] + row)[1..] == row;
    assert Add(Scale(0, RingPower(u, |row|)), Mul(v, Form(row, u, v))) == Mul(v, Form(row, u, v));
  }

  /** A trailing zero multiplies the form by u. */
  lemma {:induction false} FormTrail(row: Poly, u: Poly, v: Poly)
    requires |u| == |v| > 0 && |row| > 0
    ensures Form(row + [0], u, v) == Mul(u, Form(row, u, v))
    decreases |row|
  {
    var n := |u|;
    if |row| == 1 {
      assert (row + [0])[1..] == [0];
      assert Form([0], u, v) == Zero(n);
      FirstPower(u);
      MulZero(v);
      MulComm(u, Const(row[0], n));
      MulConstLeft(row[0], u);
      assert Add(Scale(row[0], u), Zero(n)) == Scale(row[0], u);
    } else {
      var t := row[1..];
      FormTrail(t, u, v);
      assert (row + [0])[1..] == t + [0];
      var p := RingPower(u, |row| - 1);
      MulAddRight(u, Scale(row[0], p), Mul(v, Form(t, u, v)));
      MulScaleRight(u, row[0], p);
      MulComm(p, u);
      MulLeftComm(u, v, Form(t, u, v));
    }
  }

  lemma MulZero(v: Poly)
    ensures Mul(v, Zero(|v|)) == Zero(|v|)
  {
    MulZeroRight(v, |v|);
  }

  /** The binomial theorem of the ring. */
  lemma {:induction false} BinomialTheorem(m: nat, u: Poly, v: Poly)
    requires |u| == |v| > 0
    ensures RingPower(Add(u, v), m) == Form(PascalRow(m), u, v)
  {
    if m > 0 {
      var row := PascalRow(m - 1);
      var f := Form(row, u, v);
      BinomialTheorem(m - 1, u, v);
      PascalNext(m);
      FormAdd(row + [0], [0] + row, u, v);
      FormTrail(row, u, v);
      FormLead(row, u, v);
      MulComm(f, Add(u, v));
      MulAddLeft(u, v, f);
    }
  }

  // ------------------------------------------------------- the eleventh power

  lemma {:induction false} FormTop(k: nat, u: Poly, v: Poly)
    requires |u| == |v| > 0
    ensures Form(Zero(k) + [1], u, v) == RingPower(v, k)
  {
    if k == 0 {
      assert Zero(0) + [1] == [1];
    } else {
      FormTop(k - 1, u, v);
      assert Zero(k) + [1] == [0] + (Zero(k - 1) + [1]);
      FormLead(Zero(k - 1) + [1], u, v);
      MulComm(v, RingPower(v, k - 1));
    }
  }

  /** Below its leading term, the row of a prime is 1 at the end plus p times integers. */
  lemma PrimeRow(p: nat) returns (quotients: Poly)
    requires Prime(p)
    ensures |quotients| == p
    ensures PascalRow(p)[0] == 1 && PascalRow(p)[1..] == Add(Zero(p - 1) + [1], Scale(p, quotients))
  {
    var row := PascalRow(p);
    ChooseAll(p);
    quotients := seq(p - 1, i requires 0 <= i < p - 1 => Choose(p, i + 1) / p) + [0];
    forall i | 0 <= i < p - 1
      ensures row[i + 1] == p * quotients[i]
    {
      PrimeDividesChoose(p, i + 1);
      CongMod(row[i + 1], 0, p);
      DivModUnique(0, p, 0, 0);
    }
  }

  /** (u + v)^p = u^p + v*(v^(p-1) + p*w) for a prime p. */
  lemma PrimePower(p: nat, u: Poly, v: Poly) returns (w: Poly)
    requires Prime(p) && |u| == |v| > 0
    ensures |w| == |u|
    ensures RingPower(Add(u, v), p) == Add(RingPower(u, p), Mul(v, Add(RingPower(v, p - 1), Scale(p, w))))
  {
    var quotients := PrimeRow(p);
    BinomialTheorem(p, u, v);
    var top := Zero(p - 1) + [1];
    FormAdd(top, Scale(p, quotients), u, v);
    FormScale(p, quotients, u, v);
    FormTop(p - 1, u, v);
    w := Form(quotients, u, v);
    assert Scale(1, RingPower(u, p)) == RingPower(u, p);
  }

  /** Freshman's dream: raising to a prime power is additive modulo the prime. */
  lemma PowerOfSum(p: nat, u: Poly, v: Poly)
    requires Prime(p) && |u| == |v| > 0
    ensures CongPoly(RingPower(Add(u, v), p), Add(RingPower(u, p), RingPower(v, p)), p)
  {
    var w := PrimePower(p, u, v);
    var top := RingPower(v, p - 1);
    MulAddRight(v, top, Scale(p, w));
    MulScaleRight(v, p, w);
    MulComm(v, top);
    AddAssoc(RingPower(u, p), RingPower(v, p), Scale(p, Mul(v, w)));
    CongPolyFrom(RingPower(Add(u, v), p), Add(RingPower(u, p), RingPower(v, p)), p, Mul(v, w));
  }

  /** Adding a multiple of p does not change the p-th power modulo p*p. */
  lemma PowerIgnoresMultiples(p: nat, a: Poly, h: Poly)
    requires Prime(p) && p * p > 0 && |a| == |h| > 0
    ensures CongPoly(RingPower(Add(a, Scale(p, h)), p), RingPower(a, p), p * p)
  {
    var v := Scale(p, h);
    var w := PrimePower(p, a, v);
    // v^(p-1) = p * (v^(p-2) * h)
    var z := Mul(RingPower(v, p - 2), h);
    MulScaleRight(RingPower(v, p - 2), p, h);
    ScaleAdd(p, z, w);
    var y := Add(z, w);
    MulScaleLeft(p, h, Scale(p, y));
    MulScaleRight(h, p, y);
    ScaleScale(p, p, Mul(h, y));
    CongPolyFrom(RingPower(Add(a, v), p), RingPower(a, p), p * p, Mul(h, y));
  }

  // ---------------------------------------------------------------- monomials

  /** X^k as a ring element, for any exponent. */
  function Monomial(k: nat, n: nat): (r: Poly)
    requires n > 0
    ensures |r| == n
  {
    Power(k, Const(1, n))
  }

  lemma {:induction false} PowerSum(j: nat, k: nat, b: Poly)
    ensures Power(j + k, b) == Power(j, Power(k, b))
  {
    if j > 0 {
      PowerSum(j - 1, k, b);
    }
  }

  /** X^n = -1, so exponents matter modulo 2n. */
  lemma MonomialTurn(k: nat, n: nat)
    requires n > 0
    ensures Monomial(k + n, n) == Scale(-1, Monomial(k, n))
    ensures Monomial(k + 2 * n, n) == Monomial(k, n)
  {
    var e := Const(1, n);
    PowerSum(k, n, e);
    PowerFull(e);
    PowerScale(k, -1, e);
    PowerSum(k + n, n, e);
    PowerScale(k + n, -1, e);
    ScaleScale(-1, -1, Monomial(k, n));
    assert Scale(1, Monomial(k, n)) == Monomial(k, n);
  }

  lemma {:induction false} MonomialPeriod(k: nat, n: nat, turns: nat)
    requires n > 0
    ensures Monomial(k + 2 * n * turns, n) == Monomial(k, n)
  {
    if turns > 0 {
      Distribute(2 * n, turns - 1, 1);
      MulMono(0, turns - 1, 2 * n);
      MonomialTurn(k + 2 * n * (turns - 1), n);
      MonomialPeriod(k, n, turns - 1);
    }
  }

  lemma MonomialMod(k: nat, n: nat)
    requires n > 0
    ensures Monomial(k, n) == Monomial(k % (2 * n), n)
  {
    var d, r := k / (2 * n), k % (2 * n);
    DivNonNegative(k, 2 * n);
    assert k == r + 2 * n * d;
    MonomialPeriod(r, n, d);
  }

  /** Signed unit vectors. */
  lemma MonomialCoefficient(k: nat, n: nat, d: nat)
    requires n > 0 && k < 2 * n && d < n
    ensures Monomial(k, n)[d] == if d == k then 1 else if d == k - n then -1 else 0
  {
    if k < n {
      PowerUnit(k, n);
    } else {
      MonomialTurn(k - n, n);
      PowerUnit(k - n, n);
    }
  }

  lemma {:induction false} PowerMul(k: nat, a: Poly, b: Poly)
    requires |a| == |b|
    ensures Mul(Power(k, a), b) == Power(k, Mul(a, b))
  {
    if k > 0 {
      PowerMul(k - 1, a, b);
      MulRotateLeft(Power(k - 1, a), b);
    }
  }

  lemma MonomialProduct(j: nat, k: nat, n: nat)
    requires n > 0
    ensures Mul(Monomial(j, n), Monomial(k, n)) == Monomial(j + k, n)
  {
    var e := Const(1, n);
    PowerMul(j, e, Monomial(k, n));
    MulConstLeft(1, Monomial(k, n));
    assert Scale(1, Monomial(k, n)) == Monomial(k, n);
    PowerSum(j, k, e);
  }

  lemma {:induction false} MonomialPower(k: nat, n: nat, e: nat)
    requires n > 0
    ensures RingPower(Monomial(k, n), e) == Monomial(k * e, n)
  {
    if e > 0 {
      MonomialPower(k, n, e - 1);
      MonomialProduct(k * (e - 1), k, n);
      Distribute(k, e - 1, 1);
    }
  }

  lemma {:induction false} ScaledPower(c: int, a: Poly, e: nat)
    requires |a| > 0
    ensures RingPower(Scale(c, a), e) == Scale(Pow(c, e), RingPower(a, e))
  {
    if e == 0 {
      assert Scale(1, Const(1, |a|)) == Const(1, |a|);
    } else {
      ScaledPower(c, a, e - 1);
      MulScaleRight(Scale(Pow(c, e - 1), RingPower(a, e - 1)), c, a);
      MulScaleLeft(Pow(c, e - 1), RingPower(a, e - 1), a);
      ScaleScale(c, Pow(c, e - 1), RingPower(a, e));
    }
  }

  // ------------------------------------------------------------- the automorphism

  ghost function SubstituteRule(a: Poly, u: nat, m: nat): (r: Poly)
    requires 0 < |a| && m <= |a|
    ensures |r| == |a|
  {
    if m == 0 then Zero(|a|) else Add(SubstituteRule(a, u, m - 1), Scale(a[m - 1], Monomial((m - 1) * u, |a|)))
  }

  ghost predicate IsSubstitute(a: Poly, u: nat, m: nat, r: Poly)
    requires 0 < |a| && m <= |a|
  {
    |r| == |a| && forall t {:trigger Unfold(t)} :: Unfold(t) ==> r == SubstituteRule(a, u, m)
  }

  /** The first m terms of a(X^u), the sum of a[i]*X^(i*u); unfolded by SubstituteSplit. */
  ghost function Substitute(a: Poly, u: nat, m: nat): (r: Poly)
    requires 0 < |a| && m <= |a|
    ensures |r| == |a|
  {
    assert IsSubstitute(a, u, m, SubstituteRule(a, u, m));
    var r :| IsSubstitute(a, u, m, r);
    r
  }

  /** The last term, at the exponent i*u. */
  ghost function Term(i: nat, u: nat, n: nat): (r: Poly)
    requires n > 0
    ensures |r| == n
  {
    Monomial(i * u, n)
  }

  lemma SubstituteSplit(a: Poly, u: nat, m: nat)
    requires 0 < |a| && m <= |a|
    ensures m == 0 ==> Substitute(a, u, m) == Zero(|a|)
    ensures m > 0 ==> Substitute(a, u, m) == Add(Substitute(a, u, m - 1), Scale(a[m - 1], Term(m - 1, u, |a|)))
  {
    assert Unfold(0);
  }

  lemma {:induction false} SubstituteAdd(a: Poly, b: Poly, u: nat, m: nat)
    requires |a| == |b| > 0 && m <= |a|
    ensures Substitute(Add(a, b), u, m) == Add(Substitute(a, u, m), Substitute(b, u, m))
  {
    SubstituteSplit(Add(a, b), u, m);
    SubstituteSplit(a, u, m);
    SubstituteSplit(b, u, m);
    if m > 0 {
      SubstituteAdd(a, b, u, m - 1);
      var x := Term(m - 1, u, |a|);
      ScaleSum(a[m - 1], b[m - 1], x);
      AddSwap(Substitute(a, u, m - 1), Substitute(b, u, m - 1), Scale(a[m - 1], x), Scale(b[m - 1], x));
    } else {
      assert Add(Zero(|a|), Zero(|a|)) == Zero(|a|);
    }
  }

  lemma {:induction false} SubstituteScale(c: int, a: Poly, u: nat, m: nat)
    requires |a| > 0 && m <= |a|
    ensures Substitute(Scale(c, a), u, m) == Scale(c, Substitute(a, u, m))
  {
    SubstituteSplit(Scale(c, a), u, m);
    SubstituteSplit(a, u, m);
    if m > 0 {
      SubstituteScale(c, a, u, m - 1);
      var x := Term(m - 1, u, |a|);
      ScaleScale(c, a[m - 1], x);
      ScaleAdd(c, Substitute(a, u, m - 1), Scale(a[m - 1], x));
    } else {
      assert Scale(c, Zero(|a|)) == Zero(|a|);
    }
  }

  lemma SubstituteCong(a: Poly, b: Poly, u: nat, m: int)
    requires |a| > 0 && m > 0 && CongPoly(a, b, m)
    ensures CongPoly(Substitute(a, u, |a|), Substitute(b, u, |b|), m)
  {
    var k := CongPolyWitness(a, b, m);
    SubstituteAdd(b, Scale(m, k), u, |a|);
    SubstituteScale(m, k, u, |a|);
    CongPolyFrom(Substitute(a, u, |a|), Substitute(b, u, |b|), m, Substitute(k, u, |k|));
  }

  /** X -> X^u sends X^k to X^(k*u): first below the degree, then by the sign of X^n. */
  lemma {:induction false} SubstituteUnit(k: nat, n: nat, u: nat, m: nat)
    requires 0 < n && k < n && m <= n
    ensures Substitute(Monomial(k, n), u, m) == if k < m then Term(k, u, n) else Zero(n)
  {
    SubstituteSplit(Monomial(k, n), u, m);
    if m > 0 {
      SubstituteUnit(k, n, u, m - 1);
      MonomialCoefficient(k, n, m - 1);
      var x := Term(m - 1, u, n);
      if k == m - 1 {
        assert Add(Zero(n), Scale(1, x)) == x;
      } else {
        AddNothing(Substitute(Monomial(k, n), u, m - 1), x);
      }
    }
  }

  lemma SubstituteMonomial(k: nat, n: nat, u: nat)
    requires 0 < n && k < 2 * n && u % 2 == 1
    ensures Substitute(Monomial(k, n), u, n) == Monomial(k * u, n)
  {
    if k < n {
      SubstituteUnit(k, n, u, n);
    } else {
      var j := k - n;
      MonomialTurn(j, n);
      SubstituteScale(-1, Monomial(j, n), u, n);
      SubstituteUnit(j, n, u, n);
      OddTurns(j * u, n, u);
      Distribute(u, j, n);
      assert k * u == j * u + n * u;
    }
  }

  /** An odd number of half turns changes the sign. */
  lemma OddTurns(j: nat, n: nat, u: nat)
    requires n > 0 && u % 2 == 1
    ensures Monomial(j + n * u, n) == Scale(-1, Monomial(j, n))
  {
    var h := u / 2;
    assert n * u == n + 2 * n * h by {
      assert u == 2 * h + 1;
      Distribute(n, 2 * h, 1);
      Assoc(n, 2, h);
    }
    MonomialPeriod(j + n, n, h);
    MonomialTurn(j, n);
  }

  /** X -> X^u undoes X -> X^w when u*w = 1 modulo 2n. */
  lemma {:induction false} SubstituteInverse(a: Poly, w: nat, u: nat, m: nat)
    requires 0 < |a| && m <= |a| && u % 2 == 1 && Cong(w * u, 1, 2 * |a|)
    ensures Substitute(Substitute(a, w, m), u, |a|) == a[..m] + Zero(|a| - m)
  {
    var n := |a|;
    SubstituteSplit(a, w, m);
    if m == 0 {
      SubstituteZero(n, u, n);
      assert a[..0] + Zero(n) == Zero(n);
    } else {
      var i := m - 1;
      var x := Term(i, w, n);
      SubstituteInverse(a, w, u, i);
      SubstituteAdd(Substitute(a, w, i), Scale(a[i], x), u, n);
      SubstituteScale(a[i], x, u, n);
      RoundTripMonomial(i, w, u, n);
      PlaceNext(a, i);
    }
  }

  /** Adding the next coefficient at its own monomial extends the prefix. */
  lemma PlaceNext(a: Poly, i: nat)
    requires i < |a|
    ensures Add(a[..i] + Zero(|a| - i), Scale(a[i], Monomial(i, |a|))) == a[..i + 1] + Zero(|a| - (i + 1))
  {
    PowerUnit(i, |a|);
  }

  lemma RoundTripMonomial(i: nat, w: nat, u: nat, n: nat)
    requires i < n && u % 2 == 1 && Cong(w * u, 1, 2 * n)
    ensures Substitute(Monomial(i * w, n), u, n) == Monomial(i, n)
  {
    var r := (i * w) % (2 * n);
    MonomialMod(i * w, n);
    SubstituteMonomial(r, n, u);
    ModCong(i * w, 2 * n);
    CongScale(u, r, i * w, 2 * n);
    CongScale(i, w * u, 1, 2 * n);
    Assoc(i, w, u);
    CongMod(r * u, i, 2 * n);
    MonomialMod(r * u, n);
    MonomialMod(i, n);
  }

  lemma {:induction false} SubstituteZero(n: nat, u: nat, m: nat)
    requires 0 < n && m <= n
    ensures Substitute(Zero(n), u, m) == Zero(n)
  {
    SubstituteSplit(Zero(n), u, m);
    if m > 0 {
      SubstituteZero(n, u, m - 1);
      AddNothing(Zero(n), Term(m - 1, u, n));
    }
  }

  /** Every element is the sum of its monomials. */
  lemma {:induction false} SubstituteIdentity(a: Poly, m: nat)
    requires 0 < |a| && m <= |a|
    ensures Substitute(a, 1, m) == a[..m] + Zero(|a| - m)
  {
    var n := |a|;
    SubstituteSplit(a, 1, m);
    if m == 0 {
      assert a[..0] + Zero(n) == Zero(n);
    } else {
      SubstituteIdentity(a, m - 1);
      PlaceNext(a, m - 1);
    }
  }

  // ------------------------------------------------------------------ Frobenius

  /** In degree one the ring is the integers. */
  lemma {:induction false} ScalarPower(c: int, e: nat)
    ensures RingPower([c], e) == [Pow(c, e)]
  {
    if e == 0 {
      assert Const(1, 1) == [1];
    } else {
      ScalarPower(c, e - 1);
      var k := Pow(c, e - 1);
      MulConstLeft(k, [c]);
      assert Const(k, 1) == [k];
      assert Scale(k, [c]) == [k * c];
    }
  }

  /** Fermat: c^p = c modulo a prime p, by freshman's dream in degree one. */
  lemma {:induction false} FermatNatural(p: nat, c: nat)
    requires Prime(p)
    ensures Cong(Pow(c, p), c, p)
  {
    if c > 0 {
      FermatNatural(p, c - 1);
      PowerOfSum(p, [c - 1], [1]);
      ScalarPower(c - 1, p);
      ScalarPower(1, p);
      ScalarPower(c, p);
      PowOne(p);
      assert Add([c - 1], [1]) == [c];
      assert Add([Pow(c - 1, p)], [1]) == [Pow(c - 1, p) + 1];
      assert Cong([Pow(c, p)][0], [Pow(c - 1, p) + 1][0], p);
      CongAdd(Pow(c - 1, p), c - 1, 1, 1, p);
    }
  }

  lemma {:induction false} PowOne(e: nat)
    ensures Pow(1, e) == 1
  {
    if e > 0 {
      PowOne(e - 1);
    }
  }

  lemma Fermat(p: nat, c: int)
    requires Prime(p)
    ensures Cong(Pow(c, p), c, p)
  {
    ModCong(c, p);
    PowCong(c, c % p, p, p);
    FermatNatural(p, c % p);
  }

  lemma {:induction false} PowCong(a: int, b: int, e: nat, m: int)
    requires m > 0 && Cong(a, b, m)
    ensures Cong(Pow(a, e), Pow(b, e), m)
  {
    if e > 0 {
      PowCong(a, b, e - 1, m);
      CongMul(a, b, Pow(a, e - 1), Pow(b, e - 1), m);
    }
  }

  /** a^p = a(X^p) modulo p. */
  lemma {:induction false} FrobeniusPrefix(p: nat, a: Poly, m: nat)
    requires Prime(p) && 0 < |a| && m <= |a|
    ensures CongPoly(RingPower(Substitute(a, 1, m), p), Substitute(a, p, m), p)
  {
    var n := |a|;
    SubstituteSplit(a, 1, m);
    SubstituteSplit(a, p, m);
    if m == 0 {
      ZeroPower(n, p);
    } else {
      var i := m - 1;
      FrobeniusPrefix(p, a, i);
      FrobeniusTerm(p, a[i], i, n);
      FrobeniusSum(p, Substitute(a, 1, i), Scale(a[i], Term(i, 1, n)), Substitute(a, p, i), Scale(a[i], Term(i, p, n)));
    }
  }

  lemma ZeroPower(n: nat, p: nat)
    requires n > 0 && p > 0
    ensures RingPower(Zero(n), p) == Zero(n)
  {
    MulZeroRight(RingPower(Zero(n), p - 1), n);
  }

  lemma FrobeniusSum(p: nat, u: Poly, v: Poly, x: Poly, y: Poly)
    requires Prime(p) && |u| == |v| > 0 && CongPoly(RingPower(u, p), x, p) && CongPoly(RingPower(v, p), y, p)
    ensures CongPoly(RingPower(Add(u, v), p), Add(x, y), p)
  {
    PowerOfSum(p, u, v);
    CongPolyAdd(RingPower(u, p), x, RingPower(v, p), y, p);
    CongPolyTrans(RingPower(Add(u, v), p), Add(RingPower(u, p), RingPower(v, p)), Add(x, y), p);
  }

  lemma FrobeniusTerm(p: nat, c: int, i: nat, n: nat)
    requires Prime(p) && n > 0
    ensures CongPoly(RingPower(Scale(c, Term(i, 1, n)), p), Scale(c, Term(i, p, n)), p)
  {
    assert Term(i, 1, n) == Monomial(i, n);
    ScaledPower(c, Monomial(i, n), p);
    MonomialPower(i, n, p);
    Fermat(p, c);
    ScaleCong(Pow(c, p), c, Monomial(i * p, n), p);
  }

  lemma ScaleCong(c: int, d: int, a: Poly, m: int)
    requires m > 0 && Cong(c, d, m)
    ensures CongPoly(Scale(c, a), Scale(d, a), m)
  {
    forall i | 0 <= i < |a|
      ensures Cong(Scale(c, a)[i], Scale(d, a)[i], m)
    {
      CongMul(c, d, a[i], a[i], m);
    }
  }

  lemma Frobenius(p: nat, a: Poly)
    requires Prime(p) && |a| > 0
    ensures CongPoly(RingPower(a, p), Substitute(a, p, |a|), p)
  {
    FrobeniusPrefix(p, a, |a|);
    SubstituteIdentity(a, |a|);
    assert a[..|a|] + Zero(0) == a;
  }

  // -------------------------------------------------------------------- section

  /** What the section computes, as a function of the ring: a^11 with X -> X^u. */
  ghost function Lift(a: Poly, u: nat): (r: Poly)
    requires |a| > 0
    ensures |r| == |a|
  {
    Substitute(RingPower(a, 11), u, |a|)
  }

  /** The section lifts reduction modulo 11 and ignores additions of 11*h modulo 121. */
  lemma LiftIsSection(a: Poly, h: Poly, u: nat)
    requires |a| == |h| > 0 && Cong(11 * u, 1, 2 * |a|)
    ensures CongPoly(Lift(a, u), a, 11)
    ensures CongPoly(Lift(Add(a, Scale(11, h)), u), Lift(a, u), 121)
  {
    var n := |a|;
    OddInverse(u, n);
    Frobenius(11, a);
    SubstituteCong(RingPower(a, 11), Substitute(a, 11, n), u, 11);
    SubstituteInverse(a, 11, u, n);
    assert a[..n] + Zero(0) == a;
    PowerIgnoresMultiples(11, a, h);
    SubstituteCong(RingPower(Add(a, Scale(11, h)), 11), RingPower(a, 11), u, 121);
  }

  /** X -> X^w undoes X -> X^u when u*w = 1 modulo 2n. */
  lemma SubstituteUndone(a: Poly, u: nat, w: nat)
    requires |a| > 0 && w % 2 == 1 && Cong(w * u, 1, 2 * |a|)
    ensures Substitute(Substitute(a, u, |a|), w, |a|) == a
  {
    assert w * u == u * w;
    SubstituteInverse(a, u, w, |a|);
    assert a[..|a|] + Zero(0) == a;
  }

  /** X -> X^11 brings the lift back to the eleventh power. */
  lemma LiftUndone(a: Poly, u: nat)
    requires |a| > 0 && Cong(11 * u, 1, 2 * |a|)
    ensures Substitute(Lift(a, u), 11, |a|) == RingPower(a, 11)
  {
    SubstituteUndone(RingPower(a, 11), u, 11);
  }

  // --------------------------------------------------------- the ring automorphism

  /** X -> X^u sends X^i*b to X^(i*u)*b(X^u), prefix by prefix of b. */
  lemma {:induction false} SubstituteShift(i: nat, b: Poly, u: nat, m: nat)
    requires i < |b| && m <= |b| && u % 2 == 1
    ensures Substitute(Mul(Monomial(i, |b|), Substitute(b, 1, m)), u, |b|) == Mul(Term(i, u, |b|), Substitute(b, u, m))
  {
    var n := |b|;
    SubstituteSplit(b, 1, m);
    SubstituteSplit(b, u, m);
    if m == 0 {
      MulZeroRight(Monomial(i, n), n);
      MulZeroRight(Term(i, u, n), n);
      SubstituteZero(n, u, n);
    } else {
      SubstituteShift(i, b, u, m - 1);
      SubstituteMonomials(i, m - 1, u, n);
      ShiftNext(Monomial(i, n), Term(i, u, n), Substitute(b, 1, m - 1), Substitute(b, u, m - 1),
        Term(m - 1, 1, n), Term(m - 1, u, n), b[m - 1], u);
    }
  }

  lemma ShiftNext(x: Poly, y: Poly, f: Poly, g: Poly, v: Poly, w: Poly, c: int, u: nat)
    requires 0 < |x| == |y| == |f| == |g| == |v| == |w|
    requires Substitute(Mul(x, f), u, |x|) == Mul(y, g) && Substitute(Mul(x, v), u, |x|) == Mul(y, w)
    ensures Substitute(Mul(x, Add(f, Scale(c, v))), u, |x|) == Mul(y, Add(g, Scale(c, w)))
  {
    MulAddRight(x, f, Scale(c, v));
    MulScaleRight(x, c, v);
    SubstituteAdd(Mul(x, f), Scale(c, Mul(x, v)), u, |x|);
    SubstituteScale(c, Mul(x, v), u, |x|);
    MulAddRight(y, g, Scale(c, w));
    MulScaleRight(y, c, w);
  }

  lemma SubstituteMonomials(i: nat, j: nat, u: nat, n: nat)
    requires i < n && j < n && u % 2 == 1
    ensures Substitute(Mul(Monomial(i, n), Term(j, 1, n)), u, n) == Mul(Term(i, u, n), Term(j, u, n))
  {
    MonomialProduct(i, j, n);
    SubstituteMonomial(i + j, n, u);
    MonomialProduct(i * u, j * u, n);
    Distribute(u, i, j);
  }

  /** X -> X^u is multiplicative for odd u, prefix by prefix of the left factor. */
  lemma {:induction false} SubstituteProduct(a: Poly, b: Poly, u: nat, m: nat)
    requires 0 < |a| == |b| && m <= |a| && u % 2 == 1
    ensures Substitute(Mul(Substitute(a, 1, m), b), u, |a|) == Mul(Substitute(a, u, m), Substitute(b, u, |b|))
  {
    var n := |a|;
    SubstituteSplit(a, 1, m);
    SubstituteSplit(a, u, m);
    if m == 0 {
      MulZeroLeft(n, b);
      MulZeroLeft(n, Substitute(b, u, n));
      SubstituteZero(n, u, n);
    } else {
      SubstituteProduct(a, b, u, m - 1);
      SubstituteShift(m - 1, b, u, n);
      SubstituteIdentity(b, n);
      assert b[..n] + Zero(0) == b;
      assert Term(m - 1, 1, n) == Monomial(m - 1, n);
      ProductNext(Substitute(a, 1, m - 1), Substitute(a, u, m - 1), Term(m - 1, 1, n), Term(m - 1, u, n), b,
        Substitute(b, u, n), a[m - 1], u);
    }
  }

  lemma ProductNext(f: Poly, g: Poly, v: Poly, w: Poly, b: Poly, d: Poly, c: int, u: nat)
    requires 0 < |f| == |g| == |v| == |w| == |b| == |d|
    requires Substitute(Mul(f, b), u, |f|) == Mul(g, d) && Substitute(Mul(v, b), u, |f|) == Mul(w, d)
    ensures Substitute(Mul(Add(f, Scale(c, v)), b), u, |f|) == Mul(Add(g, Scale(c, w)), d)
  {
    MulAddLeft(f, Scale(c, v), b);
    MulScaleLeft(c, v, b);
    SubstituteAdd(Mul(f, b), Scale(c, Mul(v, b)), u, |f|);
    SubstituteScale(c, Mul(v, b), u, |f|);
    MulAddLeft(g, Scale(c, w), d);
    MulScaleLeft(c, w, d);
  }

  lemma SubstituteMul(a: Poly, b: Poly, u: nat)
    requires 0 < |a| == |b| && u % 2 == 1
    ensures Substitute(Mul(a, b), u, |a|) == Mul(Substitute(a, u, |a|), Substitute(b, u, |b|))
  {
    SubstituteProduct(a, b, u, |a|);
    SubstituteIdentity(a, |a|);
    assert a[..|a|] + Zero(0) == a;
  }

  lemma {:induction false} PowerOfProduct(a: Poly, b: Poly, e: nat)
    requires 0 < |a| == |b|
    ensures RingPower(Mul(a, b), e) == Mul(RingPower(a, e), RingPower(b, e))
  {
    if e == 0 {
      MulUnitRight(Const(1, |a|));
    } else {
      PowerOfProduct(a, b, e - 1);
      var x, y := RingPower(a, e - 1), RingPower(b, e - 1);
      // (x*y)*(a*b) = (x*a)*(y*b)
      MulAssoc(x, y, Mul(a, b));
      MulLeftComm(y, a, b);
      MulAssoc(x, a, Mul(y, b));
    }
  }

  // -------------------------------------------------------------- what a section is

  /**
   r is the section of a: canonical modulo 121, a lift of a modulo 11, and a^11
   after X -> X^11. The list is determined by a; see SectionOfResidues.
   */
  ghost predicate IsSection(a: Poly, r: Poly)
    requires |a| > 0
  {
    && |r| == |a| && Canonical121(r) && CongPoly(r, a, 11)
    && CongPoly(Substitute(r, 11, |a|), RingPower(a, 11), 121)
  }

  /** X -> X^11 loses nothing when 11 is a unit modulo 2n. */
  lemma SubstituteInjective(r: Poly, s: Poly, u: nat)
    requires |r| == |s| > 0 && Cong(11 * u, 1, 2 * |r|)
    requires CongPoly(Substitute(r, 11, |r|), Substitute(s, 11, |s|), 121)
    ensures CongPoly(r, s, 121)
  {
    var n := |r|;
    OddInverse(u, n);
    SubstituteCong(Substitute(r, 11, n), Substitute(s, 11, n), u, 121);
    SubstituteInverse(r, 11, u, n);
    SubstituteInverse(s, 11, u, n);
    assert r[..n] + Zero(0) == r && s[..n] + Zero(0) == s;
  }

  /** The inverse of 11 that the placement loop uses. */
  lemma InverseOfEleven(n: nat) returns (u: nat)
    requires n > 0 && Coprime(11, 2 * n)
    ensures Cong(11 * u, 1, 2 * n)
  {
    InverseCorrect(11, 2 * n);
    u := Inverse(11, 2 * n).value;
  }

  /** The section depends on the residues modulo 11 alone, and there is only one list. */
  lemma SectionOfResidues(a: Poly, b: Poly, r: Poly, s: Poly)
    requires 0 < |a| == |b| && Coprime(11, 2 * |a|) && CongPoly(b, a, 11) && IsSection(a, r) && IsSection(b, s)
    ensures r == s
  {
    var n := |a|;
    var u := InverseOfEleven(n);
    var h := CongPolyWitness(b, a, 11);
    PowerIgnoresMultiples(11, a, h);
    CongPolyTrans(Substitute(s, 11, n), RingPower(b, 11), RingPower(a, 11), 121);
    CongPolyTrans(Substitute(s, 11, n), RingPower(a, 11), Substitute(r, 11, n), 121);
    SubstituteInjective(s, r, u);
    AgreeCanonical(r, r, s, r, 121);
  }

  /** The section is multiplicative: a ring embedding on residues modulo 11, up to reduction modulo 121. */
  lemma SectionMultiplicative(a: Poly, b: Poly, r: Poly, s: Poly, product: Poly)
    requires 0 < |a| == |b| && Coprime(11, 2 * |a|)
    requires IsSection(a, r) && IsSection(b, s) && IsSection(Mul(a, b), product)
    ensures CongPoly(product, Mul(r, s), 121)
  {
    var n := |a|;
    var u := InverseOfEleven(n);
    SubstituteMul(r, s, 11);
    PowerOfProduct(a, b, 11);
    var x, y := Substitute(r, 11, n), Substitute(s, 11, n);
    CongPolyMul(x, RingPower(a, 11), y, RingPower(b, 11), 121);
    CongPolyTrans(Substitute(product, 11, n), Mul(RingPower(a, 11), RingPower(b, 11)), Mul(x, y), 121);
    SubstituteInjective(product, Mul(r, s), u);
  }

  lemma OddInverse(u: nat, n: nat)
    requires n > 0 && Cong(11 * u, 1, 2 * n)
    ensures u % 2 == 1
  {
    CongDivisor(11 * u, 1, 2, n);
    CongMod(11 * u, 1, 2);
  }

  // ----------------------------------------------------------------- the loops

  method ProductRow(start: Poly, a: Poly, i: nat, b: Poly, t: int) returns (result: Poly)
    requires t > 0 && |a| == |b| == |start| && i < |a|
    ensures CongPoly(result, Add(start, Scale(a[i], Power(i, b))), t)
  {
    var n := |a|;
    result := start;
    ghost var row := Scale(a[i], Power(i, b));
    for j := 0 to n
      invariant |result| == n
      invariant forall d :: 0 <= d < n ==> Cong(result[d], start[d] + RowPart(row, i, j, d), t)
    {
      EntryStep(a, b, row, i, j);
      var sign := if i + j < n then 1 else -1;
      var d := if i + j < n then i + j else i + j - n;
      ModIndex(i + j, n);
      Assoc(sign, a[i], b[j]);
      var value := result[(i + j) % n] + sign * a[i] * b[j];
      ModCong(value, t);
      CongAdd(result[d], start[d] + RowPart(row, i, j, d), sign * a[i] * b[j], row[d], t);
      result := result[(i + j) % n := value % t];
    }
    assert forall d :: 0 <= d < n ==> RowPart(row, i, n, d) == row[d];
  }

  lemma ModIndex(k: int, n: int)
    requires 0 <= k < 2 * n
    ensures k % n == if k < n then k else k - n
  {
    DivModUnique(k, n, if k < n then 0 else 1, if k < n then k else k - n);
  }

  /** The negacyclic product with every update reduced modulo t. */
  method ProductMod(a: Poly, b: Poly, t: int) returns (result: Result<Poly>)
    requires t > 0
    ensures result.Err? <==> |a| != |b|
    ensures result.Ok? ==> CongPoly(result.value, Mul(a, b), t)
  {
    if |b| != |a| {
      return Err;
    }
    var out := Zero(|a|);
    PartialEnds(a, b);
    for i := 0 to |a|
      invariant CongPoly(out, Partial(a, i, b), t)
    {
      ghost var before := out;
      out := ProductRow(out, a, i, b, t);
      PartialStep(a, i, b);
      ghost var row := Scale(a[i], Power(i, b));
      CongPolyAdd(before, Partial(a, i, b), row, row, t);
    }
    return Ok(out);
  }

  /** powers[e] = a^e along the addition chain 2, 3, 5, 6, 11. */
  const NODES := [(2, 1, 1), (3, 1, 2), (5, 2, 3), (6, 3, 3), (11, 5, 6)]

  lemma {:induction false} PowerSplit(a: Poly, d: nat, e: nat)
    requires |a| > 0
    ensures RingPower(a, d + e) == Mul(RingPower(a, d), RingPower(a, e))
  {
    if e == 0 {
      var p := RingPower(a, d);
      MulComm(p, Const(1, |a|));
      MulConstLeft(1, p);
      assert Scale(1, p) == p;
    } else {
      PowerSplit(a, d, e - 1);
      MulAssoc(RingPower(a, d), RingPower(a, e - 1), a);
    }
  }

  ghost predicate Powers(powers: map<nat, Poly>, a: Poly, exponents: set<nat>)
    requires |a| > 0
  {
    powers.Keys == exponents && forall e :: e in powers ==> CongPoly(powers[e], RingPower(a, e), T)
  }

  /** The exponents present after the first k nodes of the chain. */
  function ChainExponents(k: nat): set<nat>
    requires k <= |NODES|
  {
    if k == 0 then {1} else ChainExponents(k - 1) + {NODES[k - 1].0}
  }

  lemma ChainReady(k: nat)
    requires k < |NODES|
    ensures NODES[k].1 in ChainExponents(k) && NODES[k].2 in ChainExponents(k)
    ensures NODES[k].0 == NODES[k].1 + NODES[k].2
  {
    assert ChainExponents(0) == {1};
    assert ChainExponents(1) == {1, 2};
    assert ChainExponents(2) == {1, 2, 3};
    assert ChainExponents(3) == {1, 2, 3, 5};
    assert ChainExponents(4) == {1, 2, 3, 5, 6};
  }

  lemma ChainStep(a: Poly, x: nat, y: nat, left: Poly, right: Poly, product: Poly)
    requires |a| > 0 && CongPoly(left, RingPower(a, x), T) && CongPoly(right, RingPower(a, y), T)
    requires CongPoly(product, Mul(left, right), T)
    ensures CongPoly(product, RingPower(a, x + y), T)
  {
    CongPolyMul(left, RingPower(a, x), right, RingPower(a, y), T);
    PowerSplit(a, x, y);
    CongPolyTrans(product, Mul(left, right), Mul(RingPower(a, x), RingPower(a, y)), T);
  }

  method EleventhPowerChain(a: Poly) returns (power: Poly)
    requires |a| > 0
    ensures CongPoly(power, RingPower(a, 11), T)
  {
    FirstPower(a);
    var powers: map<nat, Poly> := map[1 := a];
    for k := 0 to |NODES|
      invariant Powers(powers, a, ChainExponents(k))
    {
      var (e, x, y) := NODES[k];
      ChainReady(k);
      var product := ProductMod(powers[x], powers[y], T);
      ChainStep(a, x, y, powers[x], powers[y], product.value);
      powers := powers[e := product.value];
    }
    assert 11 in ChainExponents(5);
    power := powers[11];
  }

  /** Where the automorphism sends coefficient i, and that distinct coefficients land apart. */
  lemma TargetsApart(i: nat, j: nat, u: nat, n: nat)
    requires i < j < n && Cong(11 * u, 1, 2 * n)
    ensures i * u % (2 * n) % n != j * u % (2 * n) % n
  {
    var x, y := i * u % (2 * n), j * u % (2 * n);
    if x % n == y % n {
      CongMod(x, y, n);
      assert n * 2 == 2 * n;
      CongDivisor(11 * u, 1, n, 2);
      TargetClass(i, u, n);
      TargetClass(j, u, n);
      CongScale(11, i * u, j * u, n);
      CongScale(i, 11 * u, 1, n);
      CongScale(j, 11 * u, 1, n);
      Exchange(11, i, u);
      Exchange(11, j, u);
      CongSmallEqual(i, j, n);
    }
  }

  lemma TargetClass(i: nat, u: nat, n: nat)
    requires n > 0
    ensures Cong(i * u % (2 * n), i * u, n)
  {
    ModCong(i * u, 2 * n);
    assert 2 * n == n * 2;
    CongDivisor(i * u % (2 * n), i * u, n, 2);
  }

  /** Placing one signed value at its target adds one term of the substitution. */
  lemma PlaceValue(out: Poly, power: Poly, u: nat, i: nat, value: int)
    requires |out| == |power| && i < |power| && CongPoly(out, Substitute(power, u, i), T)
    requires var target := i * u % (2 * |out|);
             out[target % |out|] == 0 && Cong(value, if target < |out| then power[i] else -power[i], T)
    ensures CongPoly(out[i * u % (2 * |out|) % |out| := value], Substitute(power, u, i + 1), T)
  {
    var n := |out|;
    var target := i * u % (2 * n);
    TermTarget(i, u, n, target);
    SubstituteSplit(power, u, i + 1);
    PlaceTerm(out, Substitute(power, u, i), Substitute(power, u, i + 1), Term(i, u, n), power[i], target, value);
  }

  lemma TermTarget(i: nat, u: nat, n: nat, target: nat)
    requires n > 0 && target == i * u % (2 * n)
    ensures target < 2 * n && Term(i, u, n) == Monomial(target, n)
    ensures target % n == if target < n then target else target - n
  {
    ModIndex(target, n);
    MonomialMod(i * u, n);
  }

  lemma PlaceTerm(out: Poly, before: Poly, after: Poly, x: Poly, c: int, target: nat, value: int)
    requires |out| == |before| == |after| == |x| > 0 && target < 2 * |out| && x == Monomial(target, |out|)
    requires CongPoly(out, before, T) && after == Add(before, Scale(c, x))
    requires target % |out| == (if target < |out| then target else target - |out|) && out[target % |out|] == 0
    requires Cong(value, if target < |out| then c else -c, T)
    ensures CongPoly(out[target % |out| := value], after, T)
  {
    var n, at := |out|, target % |out|;
    forall d | 0 <= d < n
      ensures Cong(out[at := value][d], after[d], T)
    {
      MonomialCoefficient(target, n, d);
      ReadSum(before, after, c, x, d);
      if d == at {
        CongAdd(out[d], before[d], value, c * x[d], T);
      }
    }
  }

  /** Placing the coefficients of a congruent power places the same residues. */
  lemma PlacedCong(out: Poly, power: Poly, b: Poly, u: nat, m: int)
    requires m > 0 && |power| > 0 && CongPoly(power, b, m)
    requires CongPoly(out, Substitute(power, u, |power|), m)
    ensures CongPoly(out, Substitute(b, u, |b|), m)
  {
    SubstituteCong(power, b, u, m);
    CongPolyTrans(out, Substitute(power, u, |power|), Substitute(b, u, |b|), m);
  }

  lemma SectionReduces(out: Poly, lift: Poly, a: Poly)
    requires CongPoly(out, lift, T) && CongPoly(lift, a, 11)
    ensures CongPoly(out, a, 11)
  {
    CongPolyDivisor(out, lift, 11, 11);
    CongPolyTrans(out, lift, a, 11);
  }

  /** There is only one inverse of 11 below 2n. */
  lemma SectionUnique(out: Poly, a: Poly, inverse: nat)
    requires 0 < |a| && inverse < 2 * |a| && Cong(11 * inverse, 1, 2 * |a|) && CongPoly(out, Lift(a, inverse), T)
    ensures forall u: nat :: Cong(11 * u, 1, 2 * |a|) && u < 2 * |a| ==> CongPoly(out, Lift(a, u), T)
  {
    forall u: nat | Cong(11 * u, 1, 2 * |a|) && u < 2 * |a|
      ensures u == inverse
    {
      UniqueInverse(u, inverse, |a|);
    }
  }

  lemma UniqueInverse(u: nat, w: nat, n: nat)
    requires u < 2 * n && w < 2 * n && Cong(11 * u, 1, 2 * n) && Cong(11 * w, 1, 2 * n)
    ensures u == w
  {
    var k := CongWitness(11 * w, 1, 2 * n);
    DistributeSub(2 * n, 0, k);
    assert Bezout(11, 2 * n, w, -k);
    CoprimeCancelEqual(11, u, w, 2 * n);
    CongSmallEqual(u, w, 2 * n);
  }

  /**
   The section, with the placement loop: value i goes to exponent i/11 modulo 2n,
   with a sign when it wraps. It is refused exactly when 11 is not invertible
   modulo 2n, and its coefficients are canonical modulo 121.
   */
  method Section(a: Poly) returns (result: Result<Poly>)
    requires |a| > 0
    ensures result.Ok? <==> Coprime(11, 2 * |a|)
    ensures result.Ok? ==> |result.value| == |a| && Canonical121(result.value)
    ensures result.Ok? ==> IsSection(a, result.value)
    ensures result.Ok? ==> CongPoly(Substitute(result.value, 11, |a|), RingPower(a, 11), T)
    ensures result.Ok? ==> CongPoly(result.value, a, 11)
    ensures result.Ok? ==> forall u: nat :: Cong(11 * u, 1, 2 * |a|) && u < 2 * |a| ==> CongPoly(result.value, Lift(a, u), T)
  {
    var n := |a|;
    InverseCorrect(BASE, 2 * n);
    match Inverse(BASE, 2 * n)
    case None =>
      return Err;
    case Some(inverse) =>
      var power := EleventhPowerChain(a);
      var out := Zero(n);
      SubstituteSplit(power, inverse, 0);
      for i := 0 to n
        invariant |out| == n
        invariant forall d :: 0 <= d < n ==> 0 <= out[d] < T
        invariant CongPoly(out, Substitute(power, inverse, i), T)
        invariant forall d :: 0 <= d < n && (forall j :: 0 <= j < i ==> j * inverse % (2 * n) % n != d) ==> out[d] == 0
      {
        var target := i * inverse % (2 * n);
        var value := if target < n then power[i] else -power[i];
        forall j | 0 <= j < i
          ensures j * inverse % (2 * n) % n != target % n
        {
          TargetsApart(j, i, inverse, n);
        }
        ModCong(value, T);
        PlaceValue(out, power, inverse, i, value % T);
        out := out[target % n := value % T];
      }
      PlacedCong(out, power, RingPower(a, 11), inverse, T);
      LiftIsSection(a, Zero(n), inverse);
      SectionReduces(out, Lift(a, inverse), a);
      LiftUndone(a, inverse);
      SubstituteCong(out, Lift(a, inverse), 11, T);
      SectionUnique(out, a, inverse);
      return Ok(out);
  }

  predicate Canonical121(a: Poly)
  {
    forall d :: 0 <= d < |a| ==> 0 <= a[d] < T
  }

  /** Two sections computed from arguments that agree modulo 11 are the same list. */
  lemma SectionIgnoresMultiples(a: Poly, h: Poly, r: Poly, s: Poly, u: nat)
    requires |a| == |h| > 0 && Cong(11 * u, 1, 2 * |a|) && Canonical121(r) && Canonical121(s)
    requires CongPoly(r, Lift(a, u), T) && CongPoly(s, Lift(Add(a, Scale(11, h)), u), T)
    ensures r == s
  {
    LiftIsSection(a, h, u);
    AgreeCanonical(r, Lift(a, u), s, Lift(Add(a, Scale(11, h)), u), T);
  }

  lemma AgreeCanonical(r: Poly, x: Poly, s: Poly, y: Poly, m: int)
    requires m > 0 && CongPoly(r, x, m) && CongPoly(s, y, m) && CongPoly(y, x, m)
    requires forall d :: 0 <= d < |r| ==> 0 <= r[d] < m
    requires forall d :: 0 <= d < |s| ==> 0 <= s[d] < m
    ensures r == s
  {
    forall d | 0 <= d < |r|
      ensures r[d] == s[d]
    {
      assert Cong(s[d], y[d], m) && Cong(y[d], x[d], m) && Cong(r[d], x[d], m);
      CongSmallEqual(r[d], s[d], m);
    }
  }
}
