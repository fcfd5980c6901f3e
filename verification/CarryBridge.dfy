/**
 The refresh carry oracle: integer windings of centered representatives, the
 carry lost by rounding the two components of a ciphertext separately, and the
 winding term hidden in a homomorphic square.
 */
module CarryBridge {
  import opened Arith
  import opened Vectors
  import opened Negacyclic
  import opened NoiseOracle
  import opened Wrappers

  /** The moduli the oracle accepts. */
  predicate OracleModulus(q: int)
  {
    q >= 3 && q % 2 == 1
  }

  /** The oracle's rounding refuses every other modulus. */
  function OracleNearest(value: int, q: int): Result<int>
  {
    if q < 3 || q % 2 == 0 then Err else Ok((value + q / 2) / q)
  }

  /** value - q*nearest(value): the centered representative. */
  lemma OracleCentered(value: int, q: int)
    ensures OracleNearest(value, q).Ok? <==> OracleModulus(q)
    ensures OracleModulus(q) ==> value - q * OracleNearest(value, q).value == Centered(value, q)
  {
    if OracleModulus(q) {
      NearestResidual(value, q);
    }
  }

  // ---------------------------------------------------------- the carry cocycle

  /** The winding lost when two centered representatives are added. */
  function Carry(a: int, b: int, q: int): int
    requires q > 0
  {
    (Centered(a, q) + Centered(b, q) - Centered(a + b, q)) / q
  }

  /** The division is exact and the carry is a single crossing. */
  lemma CarryExact(a: int, b: int, q: int)
    requires OracleModulus(q)
    ensures Centered(a, q) + Centered(b, q) == Centered(a + b, q) + q * Carry(a, b, q)
    ensures -1 <= Carry(a, b, q) <= 1
  {
    CenteredRange(a, q);
    CenteredRange(b, q);
    CenteredRange(a + b, q);
    CongAdd(Centered(a, q), a, Centered(b, q), b, q);
    var k := CongWitness(Centered(a, q) + Centered(b, q), Centered(a + b, q), q);
    DivModUnique(q * k, q, k, 0);
    OneTurn(q, k);
  }

  /** Carries are a 2-cocycle: the winding of a sum does not depend on bracketing. */
  lemma CarryCocycle(a: int, b: int, c: int, q: int)
    requires OracleModulus(q)
    ensures Carry(a, b, q) + Carry(a + b, c, q) == Carry(b, c, q) + Carry(a, b + c, q)
  {
    var ca, cb, cc, cab, cbc, cabc := Centered(a, q), Centered(b, q), Centered(c, q),
                                      Centered(a + b, q), Centered(b + c, q), Centered(a + b + c, q);
    assert ca + cb == cab + q * Carry(a, b, q) by { CarryExact(a, b, q); }
    assert cab + cc == cabc + q * Carry(a + b, c, q) by { CarryExact(a + b, c, q); }
    assert cb + cc == cbc + q * Carry(b, c, q) by { CarryExact(b, c, q); }
    assert a + (b + c) == a + b + c;
    assert ca + cbc == cabc + q * Carry(a, b + c, q) by { CarryExact(a, b + c, q); }
    Rebracket(ca, cb, cc, cab, cbc, cabc, q, Carry(a, b, q), Carry(a + b, c, q), Carry(b, c, q), Carry(a, b + c, q));
  }

  lemma Rebracket(ca: int, cb: int, cc: int, cab: int, cbc: int, cabc: int, q: int, u: int, v: int, x: int, y: int)
    requires q > 0
    requires ca + cb == cab + q * u && cab + cc == cabc + q * v
    requires cb + cc == cbc + q * x && ca + cbc == cabc + q * y
    ensures u + v == x + y
  {
    Distribute(q, u, v);
    Distribute(q, x, y);
    CancelEqual(q, u + v, x + y);
  }

  /** The carries met by stepping the residue generator k times from zero. */
  function CircuitWinding(k: nat, q: int): int
    requires q > 0
  {
    if k == 0 then 0 else CircuitWinding(k - 1, q) + Carry(k - 1, 1, q)
  }

  lemma {:induction false} CircuitPrefix(k: nat, q: int)
    requires OracleModulus(q)
    ensures k == Centered(k, q) + q * CircuitWinding(k, q)
  {
    if k == 0 {
      CenteredUnique(0, q, 0);
    } else {
      CircuitPrefix(k - 1, q);
      CarryExact(k - 1, 1, q);
      CenteredUnique(1, q, 1);
      Distribute(q, CircuitWinding(k - 1, q), Carry(k - 1, 1, q));
    }
  }

  /**
   A full circuit winds exactly once, so no choice of representatives makes the
   carry vanish: the integer lift of Z/q does not split.
   */
  lemma FullCircuitWindsOnce(q: int)
    requires OracleModulus(q)
    ensures CircuitWinding(q, q) == 1
  {
    CircuitPrefix(q, q);
    CongFrom(0, q, q, -1);
    CenteredUnique(q, q, 0);
    CancelEqual(q, CircuitWinding(q, q), 1);
  }

  function CarryStep(state: int, term: int, q: int): Result<(int, int)>
    requires q > 0
  {
    if Centered(state, q) != state then Err
    else
      var next := Centered(state + term, q);
      Ok((next, (state + term - next) / q))
  }

  lemma {:induction false} SumAppend(a: seq<int>, b: seq<int>)
    ensures Sum(a + b) == Sum(a) + Sum(b)
  {
    if |b| == 0 {
      assert a + b == a;
    } else {
      assert (a + b)[..|a + b| - 1] == a + b[..|b| - 1];
      SumAppend(a, b[..|b| - 1]);
    }
  }

  /** The state and winding of a translation by `total`. */
  predicate Translated(state: int, total: int, q: int, final: int, winding: int)
    requires q > 0
  {
    final == Centered(state + total, q) && state + total == final + q * winding
  }

  lemma StepTranslates(state: int, term: int, q: int)
    requires OracleModulus(q) && Centered(state, q) == state
    ensures var r := CarryStep(state, term, q);
            r.Ok? && Translated(state, term, q, r.value.0, r.value.1)
  {
    var next := Centered(state + term, q);
    CenteredRange(state + term, q);
    var k := CongWitness(state + term, next, q);
    DivModUnique(q * k, q, k, 0);
  }

  /** For centered operands the winding is a two-sided threshold test. */
  lemma StepThreshold(state: int, term: int, q: int)
    requires OracleModulus(q) && Centered(state, q) == state && Centered(term, q) == term
    ensures var r := CarryStep(state, term, q);
            r.Ok? && r.value.1 == (if state + term >= q / 2 + 1 then 1 else if state + term <= -(q / 2) - 1 then -1 else 0)
  {
    StepTranslates(state, term, q);
    CenteredRange(state, q);
    CenteredRange(term, q);
    CenteredRange(state + term, q);
    OneTurn(q, CarryStep(state, term, q).value.1);
  }

  /** A multiple of q between -2q and 2q is -q, 0 or q. */
  lemma OneTurn(q: int, k: int)
    requires q > 0 && -2 * q < q * k < 2 * q
    ensures (k == -1 && q * k == -q) || (k == 0 && q * k == 0) || (k == 1 && q * k == q)
  {
    CancelLess(q, k, 2);
    CancelLess(q, -2, k);
  }

  lemma TranslateTwice(state: int, x: int, y: int, q: int, middle: int, w: int, final: int, v: int)
    requires q > 0 && Translated(state, x, q, middle, w) && Translated(middle, y, q, final, v)
    ensures Translated(state, x + y, q, final, w + v)
  {
    Distribute(q, w, v);
    CongFrom(state + x + y, middle + y, q, w);
    CenteredCong(state + (x + y), middle + y, q);
  }

  /** Local steps compose to one translation by the sum of the terms. */
  method CarryBlock(start: int, terms: seq<int>, q: int) returns (result: Result<(int, int)>)
    requires OracleModulus(q)
    ensures result.Err? <==> terms != [] && Centered(start, q) != start
    ensures terms == [] ==> result == Ok((start, 0))
    ensures result.Ok? && terms != [] ==>
              Translated(start, Sum(terms), q, result.value.0, result.value.1)
  {
    var state, winding := start, 0;
    for i := 0 to |terms|
      invariant i > 0 ==> Centered(start, q) == start
      invariant Centered(start, q) == start ==> Translated(start, Sum(terms[..i]), q, state, winding)
      invariant i == 0 ==> state == start && winding == 0
      invariant i > 0 ==> Centered(state, q) == state
    {
      match CarryStep(state, terms[i], q)
      case Err =>
        return Err;
      case Ok(step) =>
        assert terms[..i + 1][..i] == terms[..i];
        StepTranslates(state, terms[i], q);
        TranslateTwice(start, Sum(terms[..i]), terms[i], q, state, winding, step.0, step.1);
        CenteredRange(state + terms[i], q);
        CenteredUnique(step.0, q, step.0);
        state := step.0;
        winding := winding + step.1;
    }
    assert terms[..|terms|] == terms;
    return Ok((state, winding));
  }

  /** The translation determines state and winding, so a block may be split anywhere. */
  lemma BlockSplits(state: int, left: seq<int>, right: seq<int>, q: int,
                    middle: int, w: int, final: int, v: int, whole: int, u: int)
    requires OracleModulus(q)
    requires Translated(state, Sum(left), q, middle, w) && Translated(middle, Sum(right), q, final, v)
    requires Translated(state, Sum(left + right), q, whole, u)
    ensures whole == final && u == w + v
  {
    SumAppend(left, right);
    TranslateTwice(state, Sum(left), Sum(right), q, middle, w, final, v);
    DistributeSub(q, w + v, u);
    SmallMultiple(q, w + v - u);
  }

  // --------------------------------------------------- rounding the components

  /** t*v - q*round(t*v/q) in every coefficient. */
  function Residual(c: Poly, q: int, t: int): (r: Poly)
    requires q > 0
    ensures |r| == |c|
  {
    seq(|c|, i requires 0 <= i < |c| => t * c[i] - q * Nearest(t * c[i], q))
  }

  lemma ResidualSmall(c: Poly, q: int, t: int)
    requires OracleModulus(q)
    ensures HalfBounded(Residual(c, q, t), q - 1)
  {
    forall i | 0 <= i < |c|
      ensures 2 * Abs(Residual(c, q, t)[i]) <= q - 1
    {
      NearestResidual(t * c[i], q);
    }
  }

  lemma ResidualSplit(c: Poly, q: int, t: int)
    requires OracleModulus(q)
    ensures Scale(t, c) == Add(Scale(q, ScaleRound(c, q, t)), Residual(c, q, t))
  {
  }

  lemma ResidualCentered(c: Poly, q: int, t: int)
    requires OracleModulus(q)
    ensures forall i :: 0 <= i < |c| ==> Centered(Residual(c, q, t)[i], q) == Residual(c, q, t)[i]
  {
    ResidualSmall(c, q, t);
    forall i | 0 <= i < |c|
      ensures Centered(Residual(c, q, t)[i], q) == Residual(c, q, t)[i]
    {
      CenteredUnique(Residual(c, q, t)[i], q, Residual(c, q, t)[i]);
    }
  }

  /** The phase c0 + c1*s. */
  ghost function Affine(c0: Poly, c1: Poly, s: Poly): (r: Poly)
    requires |c0| == |c1| == |s|
    ensures |r| == |s|
  {
    Add(c0, Mul(c1, s))
  }

  /** The residual left in the phase by rounding c0 and c1 separately. */
  ghost function SwitchResidual(c0: Poly, c1: Poly, s: Poly, q: int, t: int): (r: Poly)
    requires q > 0 && |c0| == |c1| == |s|
    ensures |r| == |s|
  {
    Affine(Residual(c0, q, t), Residual(c1, q, t), s)
  }

  /** The carry: the rounded quotient of the residual. */
  ghost function SwitchCarry(c0: Poly, c1: Poly, s: Poly, q: int, t: int): (r: Poly)
    requires q > 0 && |c0| == |c1| == |s|
    ensures |r| == |s|
  {
    ScaleRound(SwitchResidual(c0, c1, s, q, t), q, 1)
  }

  /** t*(c0 + c1*s) = q*(rounded c0 + rounded c1*s) + residual. */
  lemma SwitchIdentity(c0: Poly, c1: Poly, s: Poly, q: int, t: int)
    requires OracleModulus(q) && |c0| == |c1| == |s|
    ensures Scale(t, Affine(c0, c1, s))
         == Add(Scale(q, Affine(ScaleRound(c0, q, t), ScaleRound(c1, q, t), s)), SwitchResidual(c0, c1, s, q, t))
  {
    var a0, a1 := ScaleRound(c0, q, t), ScaleRound(c1, q, t);
    var r0, r1 := Residual(c0, q, t), Residual(c1, q, t);
    ResidualSplit(c0, q, t);
    ResidualSplit(c1, q, t);
    ScaleAdd(t, c0, Mul(c1, s));
    MulScaleLeft(t, c1, s);
    MulAddLeft(Scale(q, a1), r1, s);
    MulScaleLeft(q, a1, s);
    ScaleAdd(q, a0, Mul(a1, s));
    AddSwap(Scale(q, a0), r0, Scale(q, Mul(a1, s)), Mul(r1, s));
  }

  /**
   Component switching loses exactly the carry: rounding the combined phase
   equals the phase of the separately rounded components plus the carry.
   */
  lemma ComponentSwitch(c0: Poly, c1: Poly, s: Poly, q: int, t: int)
    requires OracleModulus(q) && t > 0 && |c0| == |c1| == |s|
    ensures ScaleRound(Affine(c0, c1, s), q, t)
         == Add(Affine(ScaleRound(c0, q, t), ScaleRound(c1, q, t), s), SwitchCarry(c0, c1, s, q, t))
  {
    SwitchIdentity(c0, c1, s, q, t);
    RoundSplit(Affine(c0, c1, s), Affine(ScaleRound(c0, q, t), ScaleRound(c1, q, t), s),
      SwitchResidual(c0, c1, s, q, t), q, t);
  }

  /** The rounded phase modulo t does not depend on the representative modulo q. */
  lemma RepresentativeFree(v: int, k: int, q: int, t: int)
    requires q > 0 && t > 0
    ensures Cong(Nearest(t * (v + q * k), q), Nearest(t * v, q), t)
  {
    Distribute(t, v, q * k);
    Exchange(t, q, k);
    NearestShift(t * v, t * k, q);
    CongFrom(Nearest(t * v, q) + t * k, Nearest(t * v, q), t, k);
  }

  lemma RoundSplit(v: Poly, a: Poly, r: Poly, q: int, t: int)
    requires q > 0 && |v| == |a| == |r| && Scale(t, v) == Add(Scale(q, a), r)
    ensures ScaleRound(v, q, t) == Add(a, ScaleRound(r, q, 1))
  {
    forall j | 0 <= j < |v|
      ensures ScaleRound(v, q, t)[j] == Add(a, ScaleRound(r, q, 1))[j]
    {
      assert Scale(t, v)[j] == Add(Scale(q, a), r)[j];
      NearestShift(r[j], a[j], q);
    }
  }

  // ----------------------------------------------- the term-by-term accumulation

  /** The terms of residual coefficient j: r0[j], then the signed products r1[i]*s[k]. */
  function ResidualTerms(r0: Poly, r1: Poly, s: Poly, j: nat, m: nat): (r: seq<int>)
    requires j < |s| == |r0| == |r1| && m <= |s|
    ensures |r| == m + 1
  {
    if m == 0 then [r0[j]]
    else
      var i := m - 1;
      ResidualTerms(r0, r1, s, j, i) + [if i <= j then r1[i] * s[j - i] else r1[i] * s[|s| + j - i] * -1]
  }

  lemma {:induction false} TermsSum(r0: Poly, r1: Poly, s: Poly, j: nat, m: nat)
    requires j < |s| == |r0| == |r1| && m <= |s|
    ensures Sum(ResidualTerms(r0, r1, s, j, m)) == r0[j] + Convolve(r1, s, j, m)
  {
    if m > 0 {
      var i := m - 1;
      TermsSum(r0, r1, s, j, i);
      var p := ResidualTerms(r0, r1, s, j, i);
      var x := if i <= j then r1[i] * s[j - i] else r1[i] * s[|s| + j - i] * -1;
      assert (p + [x])[..|p|] == p;
      if i > j {
        Assoc(r1[i], s[|s| + j - i], -1);
      }
    } else {
      assert [r0[j]][..0] == [];
      assert Sum([]) == 0;
    }
  }

  /** Under a ternary secret every term is already centered. */
  lemma {:induction false} TermsCentered(r0: Poly, r1: Poly, s: Poly, j: nat, m: nat, q: int)
    requires OracleModulus(q) && j < |s| == |r0| == |r1| && m <= |s| && Ternary(s)
    requires HalfBounded(r0, q - 1) && HalfBounded(r1, q - 1)
    ensures forall i :: 0 <= i <= m ==> Centered(ResidualTerms(r0, r1, s, j, m)[i], q) == ResidualTerms(r0, r1, s, j, m)[i]
  {
    if m > 0 {
      TermsCentered(r0, r1, s, j, m - 1, q);
      var i := m - 1;
      var x := ResidualTerms(r0, r1, s, j, m)[m];
      var c := if i <= j then s[j - i] else s[|s| + j - i];
      assert 2 * Abs(r1[i]) <= q - 1;
      assert c == -1 || c == 0 || c == 1;
      assert x == r1[i] || x == -r1[i] || x == 0;
      CenteredUnique(x, q, x);
    } else {
      assert 2 * Abs(r0[j]) <= q - 1;
      CenteredUnique(r0[j], q, r0[j]);
    }
  }

  lemma AccumulateStep(representative: int, term: int, total: int, winding: int, q: int)
    requires OracleModulus(q) && Centered(representative, q) == representative && Centered(term, q) == term
    requires total == representative + q * winding
    ensures var next := Centered(representative + term, q);
            && total + term == next + q * (winding + Carry(representative, term, q))
            && Centered(next, q) == next
  {
    CarryExact(representative, term, q);
    Distribute(q, winding, Carry(representative, term, q));
    CenteredRange(representative + term, q);
    CenteredUnique(Centered(representative + term, q), q, Centered(representative + term, q));
  }

  /** The accumulation of the centered-section defect over a list of terms. */
  method AccumulateCarry(terms: seq<int>, q: int) returns (winding: int)
    requires OracleModulus(q)
    requires forall i :: 0 <= i < |terms| ==> Centered(terms[i], q) == terms[i]
    ensures winding == Nearest(Sum(terms), q)
  {
    var representative := 0;
    winding := 0;
    CenteredUnique(0, q, 0);
    for i := 0 to |terms|
      invariant Centered(representative, q) == representative
      invariant Sum(terms[..i]) == representative + q * winding
    {
      assert terms[..i + 1][..i] == terms[..i];
      ghost var before := Sum(terms[..i]);
      AccumulateStep(representative, terms[i], before, winding, q);
      winding := winding + Carry(representative, terms[i], q);
      representative := Centered(representative + terms[i], q);
    }
    assert terms[..|terms|] == terms;
    AccumulateEnd(representative, Sum(terms), winding, q);
  }

  lemma AccumulateEnd(representative: int, total: int, winding: int, q: int)
    requires OracleModulus(q) && Centered(representative, q) == representative && total == representative + q * winding
    ensures winding == Nearest(total, q)
  {
    CenteredRange(representative, q);
    NearestUnique(total, q, winding);
  }

  /** Accumulating the carry term by term gives the switching carry. */
  method ComponentCarry(c0: Poly, c1: Poly, s: Poly, q: int, t: int, j: nat) returns (winding: int)
    requires OracleModulus(q) && t > 0 && j < |c0| == |c1| == |s| && Ternary(s)
    ensures winding == SwitchCarry(c0, c1, s, q, t)[j]
    ensures winding == ScaleRound(Affine(c0, c1, s), q, t)[j] - Affine(ScaleRound(c0, q, t), ScaleRound(c1, q, t), s)[j]
  {
    var r0, r1 := Residual(c0, q, t), Residual(c1, q, t);
    ResidualCentered(c0, q, t);
    ResidualCentered(c1, q, t);
    TermsCentered(r0, r1, s, j, |s|, q);
    winding := AccumulateCarry(ResidualTerms(r0, r1, s, j, |s|), q);
    TermsSum(r0, r1, s, j, |s|);
    MulIsConvolution(r1, s, j);
    ComponentSwitch(c0, c1, s, q, t);
  }

  // -------------------------------------------------------------- the carry radius

  /** The switching residual of any ciphertext under a ternary secret, of any degree. */
  lemma SwitchResidualBounded(c0: Poly, c1: Poly, s: Poly, q: int, t: int)
    requires OracleModulus(q) && |c0| == |c1| == |s| && Ternary(s)
    ensures HalfBounded(SwitchResidual(c0, c1, s, q, t), (|s| + 1) * (q - 1))
  {
    var r0, r1 := Residual(c0, q, t), Residual(c1, q, t);
    ResidualSmall(c0, q, t);
    ResidualSmall(c1, q, t);
    TernaryAction(r1, s, q - 1);
    HalfAdd(r0, Mul(r1, s), q - 1, |s| * (q - 1));
    Distribute(q - 1, |s|, 1);
    HalfWeaken(SwitchResidual(c0, c1, s, q, t), q - 1 + |s| * (q - 1), (|s| + 1) * (q - 1));
  }

  /** |K| <= n/2 for every ciphertext under a ternary secret of even degree. */
  lemma SwitchCarryBounded(c0: Poly, c1: Poly, s: Poly, q: int, t: int)
    requires OracleModulus(q) && |c0| == |c1| == |s| && |s| % 2 == 0 && Ternary(s)
    ensures Bounded(SwitchCarry(c0, c1, s, q, t), |s| / 2)
  {
    SwitchResidualBounded(c0, c1, s, q, t);
    forall j | 0 <= j < |s|
      ensures Abs(SwitchCarry(c0, c1, s, q, t)[j]) <= |s| / 2
    {
      RoundedCarryBound(SwitchResidual(c0, c1, s, q, t)[j], |s|, q);
    }
  }

  lemma RoundedCarryBound(v: int, n: int, q: int)
    requires OracleModulus(q) && n >= 0 && n % 2 == 0 && 2 * Abs(v) <= (n + 1) * (q - 1)
    ensures Abs(Nearest(v, q)) <= n / 2
  {
    var k := Nearest(v, q);
    NearestResidual(v, q);
    AbsMul(q, k);
    Exchange(2, q, Abs(k));
    DistributeSub(n + 1, q, 1);
    Distribute(q, n + 1, 1);
    CancelLess(q, 2 * Abs(k), n + 2);
  }

  /** Every component v*: t*v = (q - 1)/2 modulo q. */
  function Constant(v: int, n: nat): (r: Poly)
    ensures |r| == n
  {
    seq(n, _ => v)
  }

  /** The all-ones secret adds up the whole second component at the top coefficient. */
  lemma {:induction false} TopConvolution(h: int, n: nat, m: nat)
    requires 0 < n && m <= n
    ensures Convolve(Constant(h, n), Constant(1, n), n - 1, m) == m * h
  {
    if m > 0 {
      TopConvolution(h, n, m - 1);
      Distribute(h, m - 1, 1);
    }
  }

  /** Both components of the constant ciphertext leave the largest residual everywhere. */
  lemma ConstantResidual(v: int, n: nat, q: int, t: int, h: int)
    requires OracleModulus(q) && q == 2 * h + 1 && Cong(t * v, h, q)
    ensures Residual(Constant(v, n), q, t) == Constant(h, n)
  {
    NearestResidual(t * v, q);
    CenteredUnique(t * v, q, h);
  }

  /**
   The radius is sharp exactly when n + 2 <= 2q: for every t and every v with
   t*v = (q - 1)/2 modulo q, the constant ciphertext v under the all-ones secret
   has carry n/2 at its top coefficient if and only if n + 2 <= 2q.
   */
  lemma CarryRadiusAttained(n: nat, q: int, t: int, v: int)
    requires OracleModulus(q) && n > 0 && n % 2 == 0
    requires Cong(t * v, (q - 1) / 2, q)
    ensures SwitchCarry(Constant(v, n), Constant(v, n), Constant(1, n), q, t)[n - 1] == n / 2 <==> n + 2 <= 2 * q
  {
    var h := (q - 1) / 2;
    var c, s := Constant(v, n), Constant(1, n);
    ConstantResidual(v, n, q, t, h);
    ExtremalResidual(h, n);
    ExtremalRounding(n, q, h);
  }

  /** Past n + 2 = 2q no ciphertext under any ternary secret reaches the radius n/2. */
  lemma CarryRadiusMissed(c0: Poly, c1: Poly, s: Poly, q: int, t: int)
    requires OracleModulus(q) && |c0| == |c1| == |s| && Ternary(s) && |s| + 2 > 2 * q
    ensures forall j :: 0 <= j < |s| ==> 2 * Abs(SwitchCarry(c0, c1, s, q, t)[j]) < |s|
  {
    SwitchResidualBounded(c0, c1, s, q, t);
    forall j | 0 <= j < |s|
      ensures 2 * Abs(SwitchCarry(c0, c1, s, q, t)[j]) < |s|
    {
      RadiusMissed(SwitchResidual(c0, c1, s, q, t)[j], |s|, q);
    }
  }

  lemma RadiusMissed(v: int, n: int, q: int)
    requires OracleModulus(q) && n + 2 > 2 * q && 2 * Abs(v) <= (n + 1) * (q - 1)
    ensures 2 * Abs(Nearest(v, q)) < n
  {
    var k := Nearest(v, q);
    NearestResidual(v, q);
    AbsMul(q, k);
    Exchange(2, q, Abs(k));
    DistributeSub(n + 1, q, 1);
    Distribute(q, n, 1);
    CancelLess(q, 2 * Abs(k), n);
  }

  lemma ExtremalResidual(h: int, n: nat)
    requires n > 0
    ensures Affine(Constant(h, n), Constant(h, n), Constant(1, n))[n - 1] == (n + 1) * h
  {
    MulIsConvolution(Constant(h, n), Constant(1, n), n - 1);
    TopConvolution(h, n, n);
    Distribute(h, n, 1);
  }

  lemma ExtremalRounding(n: int, q: int, h: int)
    requires OracleModulus(q) && n > 0 && n % 2 == 0 && q == 2 * h + 1
    ensures Nearest((n + 1) * h, q) == n / 2 <==> n + 2 <= 2 * q
  {
    var m := n / 2;
    // (n + 1)*h + h = q*m + (q - 1 - m)
    assert (n + 1) * h + h == q * m + (q - 1 - m) by {
      Distribute(h, n + 1, 1);
      assert (n + 2) * h == 2 * ((m + 1) * h);
      assert q * m == 2 * (h * m) + m;
      assert (m + 1) * h == m * h + h;
    }
    if m <= q - 1 {
      DivModUnique((n + 1) * h + h, q, m, q - 1 - m);
    } else {
      var d := (q - 1 - m) / q;
      var e := (q - 1 - m) % q;
      Distribute(q, m, d);
      DivModUnique((n + 1) * h + h, q, m + d, e);
      assert d < 0 by {
        if d >= 0 { MulMono(0, d, q); }
      }
    }
  }

  // -------------------------------------------------- the winding of a square

  /** The centered phase and the winding of a lifted phase. */
  function CenteredPhase(lifted: Poly, q: int): (r: Poly)
    requires q > 0
    ensures |r| == |lifted|
  {
    seq(|lifted|, i requires 0 <= i < |lifted| => Centered(lifted[i], q))
  }

  function Winding(lifted: Poly, q: int): (r: Poly)
    requires q > 0
    ensures |r| == |lifted|
  {
    seq(|lifted|, i requires 0 <= i < |lifted| => (lifted[i] - Centered(lifted[i], q)) / q)
  }

  lemma WindingSplit(lifted: Poly, q: int)
    requires q > 0
    ensures lifted == Add(Scale(q, Winding(lifted, q)), CenteredPhase(lifted, q))
    ensures q % 2 == 1 ==> HalfBounded(CenteredPhase(lifted, q), q - 1)
  {
    forall i | 0 <= i < |lifted|
      ensures q % 2 == 1 ==> 2 * Abs(CenteredPhase(lifted, q)[i]) <= q - 1
      ensures lifted[i] == Add(Scale(q, Winding(lifted, q)), CenteredPhase(lifted, q))[i]
    {
      CenteredRange(lifted[i], q);
      var k := CongWitness(lifted[i], Centered(lifted[i], q), q);
      DivModUnique(q * k, q, k, 0);
    }
  }

  /** 2t * winding * phase: what the winding adds to the rounded square. */
  ghost function WindingTerm(lifted: Poly, q: int, t: int): (r: Poly)
    requires q > 0
    ensures |r| == |lifted|
  {
    Scale(2 * t, Mul(Winding(lifted, q), CenteredPhase(lifted, q)))
  }

  /**
   The rounded square of a lifted phase is the rounded square of its centered
   phase plus 2t*winding*phase, up to a multiple of q that is given exactly.
   */
  lemma SquareWinding(lifted: Poly, q: int, t: int)
    requires q > 0
    ensures ScaleRound(Mul(lifted, lifted), q, t)
         == Add(Add(ScaleRound(Mul(CenteredPhase(lifted, q), CenteredPhase(lifted, q)), q, t), WindingTerm(lifted, q, t)),
                Scale(q, Scale(t, Mul(Winding(lifted, q), Winding(lifted, q)))))
  {
    var w, p := Winding(lifted, q), CenteredPhase(lifted, q);
    WindingSplit(lifted, q);
    ExpandProduct(q, w, p, w, p);
    RoundExpansion(Mul(lifted, lifted), Mul(w, w), Mul(w, p), Mul(p, p), q, t);
  }

  lemma RoundExpansion(aa: Poly, ww: Poly, wp: Poly, pp: Poly, q: int, t: int)
    requires q > 0 && |aa| == |ww| == |wp| == |pp|
    requires aa == Add(Add(Scale(q * q, ww), Scale(q, Add(wp, wp))), pp)
    ensures ScaleRound(aa, q, t) == Add(Add(ScaleRound(pp, q, t), Scale(2 * t, wp)), Scale(q, Scale(t, ww)))
  {
    forall i | 0 <= i < |aa|
      ensures ScaleRound(aa, q, t)[i] == Add(Add(ScaleRound(pp, q, t), Scale(2 * t, wp)), Scale(q, Scale(t, ww)))[i]
    {
      RoundWinding(aa[i], ww[i], wp[i], pp[i], q, t);
    }
  }

  lemma RoundWinding(a: int, w: int, x: int, p: int, q: int, t: int)
    requires q > 0 && a == (q * q) * w + q * (x + x) + p
    ensures Nearest(t * a, q) == Nearest(t * p, q) + (2 * t) * x + q * (t * w)
  {
    var k := (2 * t) * x + q * (t * w);
    assert t * a == t * p + q * k by {
      Distribute(t, (q * q) * w + q * (x + x), p);
      Distribute(t, (q * q) * w, q * (x + x));
      Assoc(q, q, w);
      Exchange(t, q, q * w);
      Exchange(t, q, w);
      Exchange(t, q, x + x);
      Distribute(t, x, x);
      Assoc(2, t, x);
      Distribute(q, t * (x + x), q * (t * w));
    }
    NearestShift(t * p, k, q);
  }

  /** The phase of the rounded square of (c0, c1). */
  ghost function SquaredTensorPhase(c0: Poly, c1: Poly, s: Poly, q: int, t: int): (r: Poly)
    requires q > 0 && |c0| == |c1| == |s| > 0
    ensures |r| == |s|
  {
    Phase(MultiplyTensor(c0, c1, c0, c1, q, t), s)
  }

  /**
   The multiplication winding, for every odd modulus, degree and ternary secret:
   the rounded square of the lifted phase is the phase-only square plus the
   winding term modulo q, and rounding the three tensor components separately
   moves each coefficient by less than (n*n + n + 2)/2.
   */
  lemma MultiplicationWinding(c0: Poly, c1: Poly, s: Poly, q: int, t: int)
    requires OracleModulus(q) && |c0| == |c1| == |s| > 0 && Ternary(s)
    ensures var lifted := Affine(c0, c1, s);
            lifted == Add(Scale(q, Winding(lifted, q)), CenteredPhase(lifted, q)) && HalfBounded(CenteredPhase(lifted, q), q - 1)
    ensures var lifted := Affine(c0, c1, s);
            var phase := CenteredPhase(lifted, q);
            var combined, ideal := ScaleRound(Mul(lifted, lifted), q, t), ScaleRound(Mul(phase, phase), q, t);
            var actual, term := SquaredTensorPhase(c0, c1, s, q, t), WindingTerm(lifted, q, t);
            var n := |s|;
            forall i :: 0 <= i < n ==>
              && Cong(combined[i], ideal[i] + term[i], q)
              && 2 * Abs(actual[i] - combined[i]) < n * n + n + 2
              && 2 * Abs(Centered(actual[i] - ideal[i] - term[i], q)) < n * n + n + 2
  {
    var lifted := Affine(c0, c1, s);
    var phase := CenteredPhase(lifted, q);
    var combined, ideal := ScaleRound(Mul(lifted, lifted), q, t), ScaleRound(Mul(phase, phase), q, t);
    WindingSplit(lifted, q);
    SquareWinding(lifted, q, t);
    var actual, eps := TensorDecomposition(c0, c1, c0, c1, s, q, t);
    PhaseOfTwo(c0, c1, s);
    CompareRoundings(|s|, actual, combined, ideal, WindingTerm(lifted, q, t),
      Scale(t, Mul(Winding(lifted, q), Winding(lifted, q))), Mul(lifted, lifted), eps, q, t);
  }

  lemma CompareRoundings(n: nat, actual: Poly, combined: Poly, ideal: Poly, term: Poly, turns: Poly,
                         square: Poly, eps: Poly, q: int, t: int)
    requires OracleModulus(q)
    requires n == |actual| == |combined| == |ideal| == |term| == |turns| == |square| == |eps|
    requires combined == ScaleRound(square, q, t)
    requires combined == Add(Add(ideal, term), Scale(q, turns))
    requires Scale(q, actual) == Add(Scale(t, square), eps)
    requires HalfBounded(eps, (1 + n + n * n) * q)
    ensures forall i :: 0 <= i < n ==>
              && Cong(combined[i], ideal[i] + term[i], q)
              && 2 * Abs(actual[i] - combined[i]) < n * n + n + 2
              && 2 * Abs(Centered(actual[i] - ideal[i] - term[i], q)) < n * n + n + 2
  {
    forall i | 0 <= i < n
      ensures Cong(combined[i], ideal[i] + term[i], q)
      ensures 2 * Abs(actual[i] - combined[i]) < n * n + n + 2
      ensures 2 * Abs(Centered(actual[i] - ideal[i] - term[i], q)) < n * n + n + 2
    {
      ReadSum(Add(ideal, term), combined, q, turns, i);
      ReadScaledSum(q, actual, t, square, eps, i);
      CongFrom(combined[i], ideal[i] + term[i], q, turns[i]);
      RoundingGap(actual[i], combined[i], t * square[i], eps[i], n, q);
      CongFrom(actual[i] - ideal[i] - term[i], actual[i] - combined[i], q, turns[i]);
      CenteredLeast(actual[i] - ideal[i] - term[i], actual[i] - combined[i], q);
    }
  }

  lemma RoundingGap(actual: int, combined: int, v: int, eps: int, n: int, q: int)
    requires OracleModulus(q) && combined == Nearest(v, q) && q * actual == v + eps
    requires 2 * Abs(eps) <= (1 + n + n * n) * q
    ensures 2 * Abs(actual - combined) < n * n + n + 2
  {
    NearestResidual(v, q);
    DistributeSub(q, actual, combined);
    AbsMul(q, actual - combined);
    Exchange(2, q, Abs(actual - combined));
    Distribute(q, 1 + n + n * n, 1);
    CancelLess(q, 2 * Abs(actual - combined), n * n + n + 2);
  }

  // ------------------------------------------------------ the width of a wide sum

  /**
   The range of the unrounded residual and the least power of `base` that
   encodes it: (sum bound, minimum modulus, exponent, modulus, carry radius).
   */
  method WideCarryRequirements(n: nat, q: int, base: int) returns (sumBound: int, minimum: int, exponent: nat, modulus: int, radius: int)
    requires OracleModulus(q) && base >= 2
    ensures sumBound == (n + 1) * ((q - 1) / 2) && minimum == 2 * sumBound + 1
    ensures modulus == Pow(base, exponent) && exponent >= 1 && modulus >= minimum
    ensures exponent > 1 ==> Pow(base, exponent - 1) < minimum
    ensures radius == Nearest(sumBound, q)
  {
    var half := (q - 1) / 2;
    sumBound := (n + 1) * half;
    minimum := 2 * sumBound + 1;
    exponent, modulus := LeastPower(base, minimum);
    radius := (sumBound + half) / q;
  }

  /** The loop: multiply by the base until the modulus reaches the minimum. */
  method LeastPower(base: int, minimum: int) returns (exponent: nat, modulus: int)
    requires base >= 2
    ensures modulus == Pow(base, exponent) && exponent >= 1 && modulus >= minimum
    ensures exponent > 1 ==> Pow(base, exponent - 1) < minimum
  {
    exponent, modulus := 1, base;
    assert Pow(base, 1) == base * Pow(base, 0);
    while modulus < minimum
      invariant exponent >= 1 && modulus == Pow(base, exponent) && modulus >= 2
      invariant exponent > 1 ==> Pow(base, exponent - 1) < minimum
      decreases minimum - modulus
    {
      exponent := exponent + 1;
      MulMono(2, base, modulus);
      modulus := modulus * base;
    }
  }
}
