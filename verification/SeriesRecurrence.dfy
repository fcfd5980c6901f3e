/**
 The lazy evaluation of the cost series. `FirstNegative` runs the sparse recurrence
 and stops at the first negative coefficient, `DirectFirstNegative` expands the
 binomials; both are proved to return the first negative index of the same series.
 */
module SeriesRecurrence {
  import opened Arith
  import opened Binomial
  import opened Vectors
  import opened Series
  import opened Wrappers

  // -------------------------------------------------------- polynomials acting

  /** The first j terms of the polynomial p applied to a series. */
  ghost function Act(p: Poly, j: nat, f: Poly): (r: Poly)
    requires j <= |p|
    ensures |r| == |f|
  {
    if j == 0 then Zero(|f|) else Add(Act(p, j - 1, f), Scale(p[j - 1], Shift(j - 1, f)))
  }

  ghost function Apply(p: Poly, f: Poly): (r: Poly)
    ensures |r| == |f|
  {
    Act(p, |p|, f)
  }

  lemma {:induction false} ActAdd(p: Poly, q: Poly, j: nat, f: Poly)
    requires j <= |p| == |q|
    ensures Act(Add(p, q), j, f) == Add(Act(p, j, f), Act(q, j, f))
  {
    if j > 0 {
      ActAdd(p, q, j - 1, f);
      var s := Shift(j - 1, f);
      ScaleSum(p[j - 1], q[j - 1], s);
      AddSwap(Act(p, j - 1, f), Act(q, j - 1, f), Scale(p[j - 1], s), Scale(q[j - 1], s));
    }
  }

  lemma {:induction false} ActScale(c: int, p: Poly, j: nat, f: Poly)
    requires j <= |p|
    ensures Act(Scale(c, p), j, f) == Scale(c, Act(p, j, f))
  {
    if j > 0 {
      ActScale(c, p, j - 1, f);
      var s := Shift(j - 1, f);
      ScaleScale(c, p[j - 1], s);
      ScaleAdd(c, Act(p, j - 1, f), Scale(p[j - 1], s));
    } else {
      assert Scale(c, Zero(|f|)) == Zero(|f|);
    }
  }

  lemma {:induction false} ActPrefix(p: Poly, q: Poly, j: nat, f: Poly)
    requires j <= |p|
    ensures Act(p + q, j, f) == Act(p, j, f)
  {
    if j > 0 {
      ActPrefix(p, q, j - 1, f);
    }
  }

  /** Trailing zeros act as nothing. */
  lemma {:induction false} ApplyPad(p: Poly, e: nat, f: Poly)
    ensures Apply(p + Zero(e), f) == Apply(p, f)
  {
    if e == 0 {
      assert p + Zero(0) == p;
    } else {
      ApplyPad(p, e - 1, f);
      assert p + Zero(e) == (p + Zero(e - 1)) + [0];
      ActPrefix(p + Zero(e - 1), [0], |p| + e - 1, f);
      AddNothing(Act(p, |p|, f), Shift(|p| + e - 1, f));
    }
  }

  lemma {:induction false} ActZeros(e: nat, p: Poly, f: Poly)
    ensures Act(Zero(e) + p, e, f) == Zero(|f|)
  {
    ActPrefix(Zero(e), p, e, f);
    ApplyPad([], e, f);
    assert [] + Zero(e) == Zero(e);
  }

  /** Leading zeros delay the action. */
  lemma {:induction false} ActDelay(e: nat, p: Poly, j: nat, f: Poly)
    requires j <= |p|
    ensures Act(Zero(e) + p, e + j, f) == Shift(e, Act(p, j, f))
  {
    if j == 0 {
      ActZeros(e, p, f);
      assert Shift(e, Zero(|f|)) == Zero(|f|);
    } else {
      ActDelay(e, p, j - 1, f);
      assert (Zero(e) + p)[e + j - 1] == p[j - 1];
      ShiftShift(e, j - 1, f);
      DelayStep(e, Act(p, j - 1, f), p[j - 1], Shift(j - 1, f));
    }
  }

  lemma DelayStep(e: nat, a: Poly, c: int, s: Poly)
    requires |a| == |s|
    ensures Shift(e, Add(a, Scale(c, s))) == Add(Shift(e, a), Scale(c, Shift(e, s)))
  {
    ShiftAdd(e, a, Scale(c, s));
    ShiftScale(e, c, s);
  }

  lemma ApplyDelay(e: nat, p: Poly, f: Poly)
    ensures Apply(Zero(e) + p, f) == Shift(e, Apply(p, f))
  {
    ActDelay(e, p, |p|, f);
  }

  lemma ApplyUnit(f: Poly)
    ensures Apply([1], f) == f
  {
    ShiftZero(f);
    assert Add(Zero(|f|), Scale(1, f)) == f;
    assert Act([1], 0, f) == Zero(|f|);
  }

  // -------------------------------------------------- multiplying by 1 - z^degree

  ghost function TimesPower(values: Poly, degree: nat): (r: Poly)
    ensures |r| == |values| + degree
  {
    Sub(values + Zero(degree), Zero(degree) + values)
  }

  method TimesOneMinusPower(values: Poly, degree: nat) returns (result: Poly)
    ensures result == TimesPower(values, degree)
  {
    result := values + Zero(degree);
    ghost var start := result;
    for i := 0 to |values|
      invariant |result| == |values| + degree
      invariant forall k :: 0 <= k < |result| ==>
                  result[k] == start[k] - (if degree <= k < i + degree then values[k - degree] else 0)
    {
      result := result[i + degree := result[i + degree] - values[i]];
    }
    assert result == TimesPower(values, degree);
  }

  lemma TimesConstant(p: Poly, e: nat)
    requires e > 0 && |p| > 0
    ensures TimesPower(p, e)[0] == p[0]
  {
    assert (p + Zero(e))[0] == p[0] && (Zero(e) + p)[0] == 0;
  }

  lemma ApplyTimes(p: Poly, e: nat, f: Poly)
    ensures Apply(TimesPower(p, e), f) == OneMinus(e, Apply(p, f))
  {
    var q := Zero(e) + p;
    ApplySub(p + Zero(e), q, f);
    ApplyPad(p, e, f);
    ApplyDelay(e, p, f);
    OneMinusIsSub(e, Apply(p, f));
  }

  lemma ApplySub(p: Poly, q: Poly, f: Poly)
    requires |p| == |q|
    ensures Apply(Add(p, Scale(-1, q)), f) == Add(Apply(p, f), Scale(-1, Apply(q, f)))
  {
    ActAdd(p, Scale(-1, q), |p|, f);
    ActScale(-1, q, |p|, f);
  }

  /** p acts as the product of 1 - z^d over the list. */
  ghost predicate ActsAs(p: Poly, ds: seq<nat>)
  {
    forall f :: Apply(p, f) == Factors(ds, f)
  }

  lemma ActsApply(p: Poly, ds: seq<nat>, f: Poly)
    requires ActsAs(p, ds)
    ensures Apply(p, f) == Factors(ds, f)
  {
  }

  lemma ActsUnit()
    ensures ActsAs([1], [])
  {
    forall f: Poly
      ensures Apply([1], f) == Factors([], f)
    {
      ApplyUnit(f);
    }
  }

  lemma ActsFirst()
    ensures ActsAs([1, -1], [1])
  {
    ActsUnit();
    ActsTimes([1], [], 1);
    assert [] + [1] == [1];
    assert TimesPower([1], 1) == [1, -1];
  }

  lemma ActsTimes(p: Poly, ds: seq<nat>, e: nat)
    requires ActsAs(p, ds)
    ensures ActsAs(TimesPower(p, e), ds + [e])
  {
    forall f
      ensures Apply(TimesPower(p, e), f) == Factors(ds + [e], f)
    {
      ActsApply(p, ds, f);
      ApplyTimes(p, e, f);
      FactorsSnoc(ds, e, f);
    }
  }

  lemma {:induction false} FactorsFront(e: nat, ds: seq<nat>, f: Poly)
    ensures Factors([e] + ds, f) == Factors(ds, OneMinus(e, f))
  {
    if |ds| == 0 {
      assert [e] + ds == [e];
      assert [e][..0] == [];
    } else {
      var last := |ds| - 1;
      FactorsFront(e, ds[..last], f);
      assert ([e] + ds)[..|ds|] == [e] + ds[..last];
    }
  }

  /** The polynomial of all factors, multiplied up in order from a start. */
  method MultiplyUp(start: Poly, ds: seq<nat>, ghost prefix: seq<nat>) returns (p: Poly)
    requires ActsAs(start, prefix) && |start| > 0 && start[0] == 1 && forall d :: d in ds ==> d > 0
    ensures ActsAs(p, prefix + ds) && |p| > 0 && p[0] == 1
  {
    p := start;
    assert prefix + ds[..0] == prefix;
    for j := 0 to |ds|
      invariant ActsAs(p, prefix + ds[..j]) && |p| > 0 && p[0] == 1
    {
      ActsTimes(p, prefix + ds[..j], ds[j]);
      assert prefix + ds[..j + 1] == (prefix + ds[..j]) + [ds[j]];
      assert ds[j] in ds;
      TimesConstant(p, ds[j]);
      p := TimesOneMinusPower(p, ds[j]);
    }
    assert ds[..|ds|] == ds;
  }

  /** The degrees before index t, without the one at j. */
  ghost function Kept(ds: seq<nat>, j: nat, t: nat): seq<nat>
    requires j < |ds| && t <= |ds|
  {
    if t <= j then ds[..t] else ds[..j] + ds[j + 1..t]
  }

  ghost predicate Distinct(ds: seq<nat>)
  {
    forall i, j :: 0 <= i < j < |ds| ==> ds[i] != ds[j]
  }

  lemma KeptStep(ds: seq<nat>, j: nat, t: nat)
    requires j < |ds| && t < |ds| && Distinct(ds)
    ensures ds[t] != ds[j] ==> Kept(ds, j, t + 1) == Kept(ds, j, t) + [ds[t]]
    ensures ds[t] == ds[j] ==> Kept(ds, j, t + 1) == Kept(ds, j, t)
  {
    if t < j {
      assert ds[t] != ds[j];
      assert ds[..t + 1] == ds[..t] + [ds[t]];
    } else if t > j {
      assert ds[j] != ds[t];
      assert ds[j + 1..t + 1] == ds[j + 1..t] + [ds[t]];
    } else {
      assert ds[j + 1..t + 1] == [];
    }
  }

  ghost predicate OtherRule(other: Poly, ds: seq<nat>, j: nat, t: nat)
    requires j < |ds| && t <= |ds|
  {
    ActsAs(other, [1] + Kept(ds, j, t)) && |other| >= 2
  }

  ghost predicate IsOther(other: Poly, ds: seq<nat>, j: nat, t: nat, b: bool)
    requires j < |ds| && t <= |ds|
  {
    forall z {:trigger Unfold(z)} :: Unfold(z) ==> b == OtherRule(other, ds, j, t)
  }

  /** The running product covers the kept degrees before index t; unfolded by OtherStep and OtherEnds. */
  ghost predicate OtherPart(other: Poly, ds: seq<nat>, j: nat, t: nat)
    requires j < |ds| && t <= |ds|
  {
    assert IsOther(other, ds, j, t, OtherRule(other, ds, j, t));
    var b :| IsOther(other, ds, j, t, b);
    b
  }

  lemma OtherStep(other: Poly, ds: seq<nat>, j: nat, t: nat)
    requires j < |ds| && t < |ds| && Distinct(ds) && OtherPart(other, ds, j, t)
    ensures OtherPart(if ds[t] != ds[j] then TimesPower(other, ds[t]) else other, ds, j, t + 1)
  {
    assert Unfold(0);
    KeptStep(ds, j, t);
    if ds[t] != ds[j] {
      assert [1] + (Kept(ds, j, t) + [ds[t]]) == ([1] + Kept(ds, j, t)) + [ds[t]];
      ActsTimes(other, [1] + Kept(ds, j, t), ds[t]);
    }
  }

  lemma OtherEnds(ds: seq<nat>, j: nat)
    requires j < |ds|
    ensures OtherPart([1, -1], ds, j, 0)
    ensures forall p :: OtherPart(p, ds, j, |ds|) ==> ActsAs(p, [1] + Without(ds, j)) && |p| >= 2
  {
    ActsFirst();
    assert [1] + Kept(ds, j, 0) == [1];
    assert Kept(ds, j, |ds|) == Without(ds, j);
    assert Unfold(0);
  }

  /** (1 - z) times the factors of every other degree. */
  method OtherFactors(ds: seq<nat>, j: nat) returns (other: Poly)
    requires j < |ds| && Distinct(ds)
    ensures ActsAs(other, [1] + Without(ds, j)) && |other| >= 2
  {
    OtherEnds(ds, j);
    other := [1, -1];
    for t := 0 to |ds|
      invariant OtherPart(other, ds, j, t)
    {
      OtherStep(other, ds, j, t);
      if ds[t] != ds[j] {
        other := TimesOneMinusPower(other, ds[t]);
      }
    }
  }

  // ------------------------------------------------------------------- numerator

  function Padded(numerator: Poly, required: nat): (r: Poly)
    ensures |r| >= required && |r| >= |numerator|
  {
    numerator + Zero(if required > |numerator| then required - |numerator| else 0)
  }

  /** The inner loop over one equation: subtract count*degree*z^(degree-1)*other. */
  method SubtractTerm(numerator: Poly, other: Poly, degree: nat, count: nat) returns (result: Poly)
    requires degree > 0
    ensures var extended := Padded(numerator, degree - 1 + |other|);
            result == Add(extended, Scale(Weight(degree, count), Padded(Zero(degree - 1) + other, |extended|)))
  {
    var extended := Padded(numerator, degree - 1 + |other|);
    ghost var term := Padded(Zero(degree - 1) + other, |extended|);
    ghost var w := Weight(degree, count);
    WeightValue(degree, count);
    result := extended;
    for i := 0 to |other|
      invariant |result| == |extended|
      invariant forall k :: 0 <= k < |result| && k < i + degree - 1 ==> result[k] == extended[k] + w * term[k]
      invariant forall k :: 0 <= k < |result| && k >= i + degree - 1 ==> result[k] == extended[k]
    {
      SubtractEntry(count * degree, other[i], w);
      assert term[i + degree - 1] == other[i];
      result := result[i + degree - 1 := result[i + degree - 1] - count * degree * other[i]];
    }
    assert forall k :: degree - 1 + |other| <= k < |term| ==> term[k] == 0;
    assert w * 0 == 0;
    assert result == Add(extended, Scale(w, term));
  }

  lemma SubtractEntry(c: int, x: int, w: int)
    requires w == -c
    ensures -(c * x) == w * x
  {
  }

  /** The numerator after j equations is the partial sum of the logarithmic derivative. */
  ghost predicate NumeratorActs(numerator: Poly, n: nat, ms: Equations, j: nat)
    requires j <= |ms|
  {
    forall f :: Shift(1, Apply(numerator, f)) == LogSum(n, ms, j, f)
  }

  lemma NumeratorStart(product: Poly, n: nat, ms: Equations)
    requires ActsAs(product, Degrees(ms))
    ensures NumeratorActs(Scale(n, product), n, ms, 0)
  {
    forall f
      ensures Shift(1, Apply(Scale(n, product), f)) == LogSum(n, ms, 0, f)
    {
      ActsApply(product, Degrees(ms), f);
      ActScale(n, product, |product|, f);
      ShiftScale(1, n, Apply(product, f));
    }
  }

  lemma ApplyPadded(p: Poly, required: nat, f: Poly)
    ensures Apply(Padded(p, required), f) == Apply(p, f)
  {
    ApplyPad(p, if required > |p| then required - |p| else 0, f);
  }

  lemma NumeratorStep(numerator: Poly, other: Poly, n: nat, ms: Equations, j: nat, next: Poly)
    requires j < |ms| && NumeratorActs(numerator, n, ms, j) && ms[j].0 > 0
    requires ActsAs(other, [1] + Without(Degrees(ms), j))
    requires var extended := Padded(numerator, ms[j].0 - 1 + |other|);
             next == Add(extended, Scale(Weight(ms[j].0, ms[j].1), Padded(Zero(ms[j].0 - 1) + other, |extended|)))
    ensures NumeratorActs(next, n, ms, j + 1)
  {
    var d, w := ms[j].0, Weight(ms[j].0, ms[j].1);
    var extended := Padded(numerator, d - 1 + |other|);
    var term := Padded(Zero(d - 1) + other, |extended|);
    forall f
      ensures Shift(1, Apply(next, f)) == LogSum(n, ms, j + 1, f)
    {
      ActsApply(other, [1] + Without(Degrees(ms), j), f);
      ActAdd(extended, Scale(w, term), |extended|, f);
      ActScale(w, term, |term|, f);
      ApplyPadded(numerator, d - 1 + |other|, f);
      ApplyPadded(Zero(d - 1) + other, |extended|, f);
      ApplyDelay(d - 1, other, f);
      FactorsFront(1, Without(Degrees(ms), j), f);
      var g := Apply(other, f);
      ShiftAdd(1, Apply(numerator, f), Scale(w, Shift(d - 1, g)));
      ShiftScale(1, w, Shift(d - 1, g));
      ShiftShift(1, d - 1, g);
      assert Shift(1, Apply(numerator, f)) == LogSum(n, ms, j, f);
    }
  }

  method Numerator(n: nat, ms: Equations, product: Poly) returns (numerator: Poly)
    requires ActsAs(product, Degrees(ms)) && Distinct(Degrees(ms)) && forall i :: 0 <= i < |ms| ==> ms[i].0 > 0
    ensures NumeratorActs(numerator, n, ms, |ms|)
  {
    numerator := Scale(n, product);
    NumeratorStart(product, n, ms);
    for j := 0 to |ms|
      invariant NumeratorActs(numerator, n, ms, j)
    {
      var other := OtherFactors(Degrees(ms), j);
      ghost var before := numerator;
      numerator := SubtractTerm(numerator, other, ms[j].0, ms[j].1);
      NumeratorStep(before, other, n, ms, j, numerator);
    }
  }

  // -------------------------------------------------------------- the recurrence

  function At(p: Poly, i: int): int
  {
    if 0 <= i < |p| then p[i] else 0
  }

  /** One term (p - q*j)*x of the recurrence. */
  ghost function Entry(p: int, q: int, j: int, x: int): int
  {
    (p - q * j) * x
  }

  lemma EntryValue(p: int, q: int, j: int, x: int)
    ensures Entry(p, q, j, x) == (p - q * j) * x
    ensures Entry(p, q, j, x) == p * x - q * (j * x)
    ensures p == 0 && q == 0 ==> Entry(p, q, j, x) == 0
  {
    DistributeSub(x, p, q * j);
    Assoc(q, j, x);
  }

  /** The terms of the recurrence below index bound, zero or not. */
  ghost function RowSum(numerator: Poly, denominator: Poly, f: Poly, k: nat, bound: nat): int
    requires 0 < k < |f| && bound > 0
  {
    if bound == 1 then 0
    else
      var i := bound - 1;
      RowSum(numerator, denominator, f, k, i)
      + (if i <= k then Entry(At(numerator, i - 1), At(denominator, i), k - i, f[k - i]) else 0)
  }

  ghost function ActTo(p: Poly, bound: nat, f: Poly): (r: Poly)
    ensures |r| == |f|
  {
    Act(p, if bound <= |p| then bound else |p|, f)
  }

  lemma ActStep(p: Poly, i: nat, f: Poly, k: nat)
    requires k < |f|
    ensures ActTo(p, i + 1, f)[k] == ActTo(p, i, f)[k] + At(p, i) * (if i <= k then f[k - i] else 0)
  {
    if i < |p| {
      ReadSum(Act(p, i, f), Act(p, i + 1, f), p[i], Shift(i, f), k);
    } else {
      assert At(p, i) == 0;
    }
  }

  /** The recurrence sum is the difference of the two actions, without the leading term. */
  lemma {:induction false} RowSumActs(numerator: Poly, denominator: Poly, f: Poly, k: nat, bound: nat)
    requires 0 < k < |f| && bound > 0 && |denominator| > 0 && denominator[0] == 1
    ensures RowSum(numerator, denominator, f, k, bound)
         == Shift(1, ActTo(numerator, bound - 1, f))[k] - (ActTo(denominator, bound, Theta(f))[k] - k * f[k])
  {
    var t := Theta(f);
    if bound == 1 {
      assert ActTo(numerator, 0, f) == Zero(|f|);
      ActStep(denominator, 0, t, k);
      assert ActTo(denominator, 0, t) == Zero(|f|);
    } else {
      var i := bound - 1;
      RowSumActs(numerator, denominator, f, k, i);
      ActStep(denominator, i, t, k);
      ActStep(numerator, i - 1, f, k - 1);
      RowTerm(At(numerator, i - 1), At(denominator, i), f, k, i);
    }
  }

  lemma RowTerm(p: int, q: int, f: Poly, k: nat, i: nat)
    requires 0 < k < |f| && i > 0
    ensures (if i <= k then Entry(p, q, k - i, f[k - i]) else 0)
         == p * (if i - 1 <= k - 1 then f[k - 1 - (i - 1)] else 0) - q * (if i <= k then Theta(f)[k - i] else 0)
  {
    if i <= k {
      EntryValue(p, q, k - i, f[k - i]);
    }
  }

  type Support = seq<(nat, int, int)>

  /** The nonzero terms (i, p, q) below index bound, as the loop collects them. */
  ghost function SupportOf(numerator: Poly, denominator: Poly, bound: nat): Support
    requires bound > 0
  {
    if bound == 1 then []
    else
      var i := bound - 1;
      var p, q := At(numerator, i - 1), At(denominator, i);
      SupportOf(numerator, denominator, i) + (if p != 0 || q != 0 then [(i, p, q)] else [])
  }

  /** Every index is positive, so the sum reads only earlier coefficients. */
  predicate Positive(support: Support)
  {
    forall s :: 0 <= s < |support| ==> support[s].0 > 0
  }

  ghost function Total(support: Support, coefficients: Poly, k: nat): int
    requires k <= |coefficients| && Positive(support)
  {
    if |support| == 0 then 0
    else
      var last := |support| - 1;
      var (i, p, q) := support[last];
      Total(support[..last], coefficients, k) + (if i <= k then Entry(p, q, k - i, coefficients[k - i]) else 0)
  }

  lemma {:induction false} SupportPositive(numerator: Poly, denominator: Poly, bound: nat)
    requires bound > 0
    ensures Positive(SupportOf(numerator, denominator, bound))
  {
    if bound > 1 {
      SupportPositive(numerator, denominator, bound - 1);
    }
  }

  lemma {:induction false} TotalIsRowSum(numerator: Poly, denominator: Poly, f: Poly, k: nat, bound: nat)
    requires 0 < k < |f| && bound > 0 && Positive(SupportOf(numerator, denominator, bound))
    ensures Total(SupportOf(numerator, denominator, bound), f[..k], k) == RowSum(numerator, denominator, f, k, bound)
  {
    if bound > 1 {
      var i := bound - 1;
      var p, q := At(numerator, i - 1), At(denominator, i);
      var rest := SupportOf(numerator, denominator, i);
      SupportPositive(numerator, denominator, i);
      TotalIsRowSum(numerator, denominator, f, k, i);
      if p != 0 || q != 0 {
        assert (rest + [(i, p, q)])[..|rest|] == rest;
      } else {
        assert rest + [] == rest;
        EntryValue(p, q, k - i, if i <= k then f[k - i] else 0);
      }
    }
  }

  method BuildSupport(numerator: Poly, denominator: Poly) returns (support: Support, ghost bound: nat)
    ensures bound > 0 && bound >= |denominator| && bound >= |numerator| + 1
    ensures support == SupportOf(numerator, denominator, bound) && Positive(support)
  {
    var limit := Max(Max(|denominator|, |numerator| + 1), 1);
    support := [];
    for i := 1 to limit
      invariant support == SupportOf(numerator, denominator, i)
    {
      var p, q := At(numerator, i - 1), At(denominator, i);
      if p != 0 || q != 0 {
        support := support + [(i, p, q)];
      }
    }
    bound := limit;
    SupportPositive(numerator, denominator, bound);
  }

  method SumTerms(support: Support, coefficients: Poly) returns (total: int)
    requires Positive(support)
    ensures total == Total(support, coefficients, |coefficients|)
  {
    var k := |coefficients|;
    total := 0;
    for s := 0 to |support|
      invariant total == Total(support[..s], coefficients, k)
    {
      var (i, p, q) := support[s];
      assert support[..s + 1][..s] == support[..s];
      if i <= k {
        EntryValue(p, q, k - i, coefficients[k - i]);
        total := total + (p - q * (k - i)) * coefficients[k - i];
      }
    }
    assert support[..|support|] == support;
  }

  /** The sum the loop divides by k is k times the next coefficient. */
  lemma RecurrenceExact(n: nat, ms: Equations, precision: nat, numerator: Poly, denominator: Poly, bound: nat, k: nat)
    requires 0 < k < precision && bound > 0 && bound >= |denominator| && bound >= |numerator| + 1
    requires |denominator| > 0 && denominator[0] == 1
    requires ActsAs(denominator, Degrees(ms) + [1]) && NumeratorActs(numerator, n, ms, |ms|)
    requires Positive(SupportOf(numerator, denominator, bound))
    ensures Total(SupportOf(numerator, denominator, bound), SeriesOf(n, ms, precision)[..k], k)
         == k * SeriesOf(n, ms, precision)[k]
  {
    var f := SeriesOf(n, ms, precision);
    TotalIsRowSum(numerator, denominator, f, k, bound);
    RowSumActs(numerator, denominator, f, k, bound);
    LogDerivative(n, ms, precision);
    ActsApply(denominator, Degrees(ms) + [1], Theta(f));
    FactorsSnoc(Degrees(ms), 1, Theta(f));
    assert Shift(1, Apply(numerator, f)) == LogSum(n, ms, |ms|, f);
  }

  // ------------------------------------------------------------- multiplicities

  /** The position of a degree in the insertion-ordered table, or its length. */
  function Find(ms: Equations, d: nat): (i: nat)
    ensures i <= |ms| && (i < |ms| ==> ms[i].0 == d)
    ensures forall j :: 0 <= j < i ==> ms[j].0 != d
  {
    if |ms| == 0 then 0
    else
      var last := |ms| - 1;
      var i := Find(ms[..last], d);
      if i < last then i else if ms[last].0 == d then last else |ms|
  }

  /** multiplicities[d] = multiplicities.get(d, 0) + count. */
  function Bump(ms: Equations, d: nat, count: nat): Equations
  {
    var i := Find(ms, d);
    if i < |ms| then ms[i := (d, ms[i].1 + count)] else ms + [(d, count)]
  }

  lemma {:induction false} PowersBump(ms: Equations, d: nat, count: nat, f: Poly)
    ensures Powers(Bump(ms, d, count), f) == Repeat(d, count, Powers(ms, f))
  {
    var i := Find(ms, d);
    var last := |ms| - 1;
    if i == |ms| {
      assert (ms + [(d, count)])[..|ms|] == ms;
    } else if i == last {
      var next := ms[i := (d, ms[i].1 + count)];
      assert next[..last] == ms[..last];
      RepeatSum(d, count, ms[i].1, Powers(ms[..last], f));
    } else {
      var (e, m) := ms[last];
      var rest := ms[..last];
      assert Find(rest, d) == i;
      assert Bump(ms, d, count)[..last] == Bump(rest, d, count);
      PowersBump(rest, d, count, f);
      RepeatRepeat(e, m, d, count, Powers(rest, f));
    }
  }

  predicate Tidy(ms: Equations, precision: nat)
  {
    && (forall i, j :: 0 <= i < j < |ms| ==> ms[i].0 != ms[j].0)
    && (forall i :: 0 <= i < |ms| ==> 0 < ms[i].0 < precision)
  }

  /** A well-formed system: positive degrees and nonnegative multiplicities. */
  predicate WellFormed(equations: seq<(int, int)>)
  {
    forall i :: 0 <= i < |equations| ==> equations[i].0 >= 1 && equations[i].1 >= 0
  }

  function Checked(equations: seq<(int, int)>): (ms: Equations)
    requires WellFormed(equations)
    ensures |ms| == |equations|
  {
    seq(|equations|, i requires 0 <= i < |equations| => (equations[i].0 as nat, equations[i].1 as nat))
  }

  /** The merged table gives the series of the first i equations. */
  ghost predicate Merged(ms: Equations, equations: seq<(int, int)>, i: nat, f: Poly)
    requires i <= |equations|
  {
    WellFormed(equations[..i]) && Tidy(ms, |f|) && Powers(ms, f) == Powers(Checked(equations[..i]), f)
  }

  lemma MergeStep(ms: Equations, equations: seq<(int, int)>, i: nat, f: Poly)
    requires i < |equations| && Merged(ms, equations, i, f)
    ensures equations[i].0 < 1 || equations[i].1 < 0 ==> !WellFormed(equations)
    ensures equations[i].0 >= 1 && equations[i].1 >= 0 ==>
              Merged(if equations[i].1 != 0 && equations[i].0 < |f| then Bump(ms, equations[i].0, equations[i].1) else ms,
                     equations, i + 1, f)
  {
    var (degree, count) := equations[i];
    if degree >= 1 && count >= 0 {
      assert equations[..i + 1] == equations[..i] + [(degree, count)];
      PowersSnoc(equations[..i], degree, count, f);
      MergeOne(ms, degree, count, f);
    }
  }

  lemma PowersSnoc(before: seq<(int, int)>, degree: nat, count: nat, f: Poly)
    requires WellFormed(before) && degree >= 1
    ensures WellFormed(before + [(degree, count)])
    ensures Powers(Checked(before + [(degree, count)]), f) == Repeat(degree, count, Powers(Checked(before), f))
  {
    assert Checked(before + [(degree, count)])[..|before|] == Checked(before);
  }

  lemma MergeOne(ms: Equations, degree: nat, count: nat, f: Poly)
    requires Tidy(ms, |f|) && degree >= 1
    ensures var next := if count != 0 && degree < |f| then Bump(ms, degree, count) else ms;
            Tidy(next, |f|) && Powers(next, f) == Repeat(degree, count, Powers(ms, f))
  {
    if degree >= |f| {
      RepeatOut(degree, count, Powers(ms, f));
    } else if count != 0 {
      PowersBump(ms, degree, count, f);
      BumpTidy(ms, degree, count, |f|);
    }
  }

  lemma BumpTidy(ms: Equations, d: nat, count: nat, precision: nat)
    requires Tidy(ms, precision) && 0 < d < precision
    ensures Tidy(Bump(ms, d, count), precision)
  {
  }

  lemma MergeEnds(equations: seq<(int, int)>, f: Poly)
    ensures Merged([], equations, 0, f)
    ensures forall ms :: Merged(ms, equations, |equations|, f) ==>
              WellFormed(equations) && Tidy(ms, |f|) && Powers(ms, f) == Powers(Checked(equations), f)
  {
    assert equations[..|equations|] == equations;
    assert Checked(equations[..0]) == [];
  }

  /** Merging duplicates and dropping zero counts and high degrees keeps the series. */
  method Merge(equations: seq<(int, int)>, precision: nat, ghost f: Poly) returns (result: Result<Equations>)
    requires |f| == precision
    ensures result.Ok? <==> WellFormed(equations)
    ensures result.Ok? ==> Tidy(result.value, precision) && Powers(result.value, f) == Powers(Checked(equations), f)
  {
    var multiplicities: Equations := [];
    MergeEnds(equations, f);
    for i := 0 to |equations|
      invariant Merged(multiplicities, equations, i, f)
    {
      MergeStep(multiplicities, equations, i, f);
      var (degree, count) := equations[i];
      if degree < 1 || count < 0 {
        return Err;
      }
      if count != 0 && degree < precision {
        multiplicities := Bump(multiplicities, degree, count);
      }
    }
    return Ok(multiplicities);
  }

  // ------------------------------------------------------------- first negative

  /** The first index at or after k with a negative coefficient. */
  function FirstNegativeFrom(f: Poly, k: nat): (r: Option<nat>)
    requires k <= |f|
    ensures r.Some? ==> k <= r.value < |f| && f[r.value] < 0 && forall i :: k <= i < r.value ==> f[i] >= 0
    ensures r.None? ==> forall i :: k <= i < |f| ==> f[i] >= 0
    decreases |f| - k
  {
    if k == |f| then None else if f[k] < 0 then Some(k) else FirstNegativeFrom(f, k + 1)
  }

  /** The constant coefficient is 1. */
  lemma {:induction false} ConstantOne(n: nat, ms: Equations, precision: nat)
    requires precision > 0 && forall i :: 0 <= i < |ms| ==> ms[i].0 > 0
    ensures SeriesOf(n, ms, precision)[0] == 1
  {
    if |ms| > 0 {
      var last := |ms| - 1;
      ConstantOne(n, ms[..last], precision);
      RepeatConstant(ms[last].0, ms[last].1, SeriesOf(n, ms[..last], precision));
    }
  }

  lemma {:induction false} RepeatConstant(e: nat, m: nat, f: Poly)
    requires e > 0 && |f| > 0
    ensures Repeat(e, m, f)[0] == f[0]
  {
    if m > 0 {
      RepeatConstant(e, m - 1, f);
    }
  }

  lemma DivideExact(k: int, c: int)
    requires k > 0
    ensures (k * c) / k == c && (k * c) % k == 0
  {
    DivModUnique(k * c, k, c, 0);
  }

  /** The support of the recurrence, from the products of the factors. */
  method Prepare(n: nat, ms: Equations)
    returns (support: Support, ghost numerator: Poly, ghost denominator: Poly, ghost bound: nat)
    requires Distinct(Degrees(ms)) && forall i :: 0 <= i < |ms| ==> ms[i].0 > 0
    ensures bound > 0 && bound >= |denominator| && bound >= |numerator| + 1
    ensures |denominator| > 0 && denominator[0] == 1
    ensures ActsAs(denominator, Degrees(ms) + [1]) && NumeratorActs(numerator, n, ms, |ms|)
    ensures support == SupportOf(numerator, denominator, bound) && Positive(support)
  {
    ActsUnit();
    var ds := Degrees(ms);
    assert [] + ds == ds;
    var product := MultiplyUp([1], ds, []);
    ActsTimes(product, ds, 1);
    TimesConstant(product, 1);
    var below := TimesOneMinusPower(product, 1);
    var above := Numerator(n, ms, product);
    support, bound := BuildSupport(above, below);
    numerator, denominator := above, below;
  }

  /**
   The lazy evaluation: it refuses exactly the malformed arguments, every division by
   k is exact, and it returns the first negative index of the full series, at twice the
   dimension unless a precision is given.
   */
  method FirstNegative(n: int, equations: seq<(int, int)>, precision: Option<int>) returns (result: Result<Option<nat>>)
    ensures result.Ok? <==> n >= 0 && (precision.Some? ==> precision.value >= 0) && WellFormed(equations)
    ensures result.Ok? && precision.Some? ==> result.value == FirstNegativeFrom(SeriesOf(n, Checked(equations), precision.value), 0)
    ensures result.Ok? && precision.None? ==> result.value == FirstNegativeFrom(SeriesOf(n, Checked(equations), 2 * n), 0)
  {
    if n < 0 {
      return Err;
    }
    var limit := if precision.Some? then precision.value else 2 * n;
    if limit < 0 {
      return Err;
    }
    var merged := Merge(equations, limit, Geometric(n, limit));
    if merged.Err? {
      return Err;
    }
    var ms := merged.value;
    var support, numerator, denominator, bound := Prepare(n, ms);
    ghost var f := SeriesOf(n, ms, limit);
    if limit == 0 {
      return Ok(None);
    }
    ConstantOne(n, ms, limit);
    var coefficients := [1];
    for k := 1 to limit
      invariant coefficients == f[..k]
      invariant FirstNegativeFrom(f, 0) == FirstNegativeFrom(f, k)
    {
      var total := SumTerms(support, coefficients);
      RecurrenceExact(n, ms, limit, numerator, denominator, bound, k);
      DivideExact(k, f[k]);
      var coefficient, remainder := total / k, total % k;
      assert remainder == 0;
      if coefficient < 0 {
        return Ok(Some(k));
      }
      coefficients := coefficients + [coefficient];
    }
    return Ok(None);
  }

  // -------------------------------------------------------------- direct expansion

  function Sign(j: nat): int
  {
    if j % 2 == 0 then 1 else -1
  }

  ghost predicate IsSigned(m: nat, j: nat, c: int)
  {
    forall t {:trigger Unfold(t)} :: Unfold(t) ==> c == Sign(j) * Choose(m, j)
  }

  /** Coefficient j of (1 - z)^m; unfolded by SignedValue. */
  ghost function Signed(m: nat, j: nat): int
  {
    assert IsSigned(m, j, Sign(j) * Choose(m, j));
    var c :| IsSigned(m, j, c);
    c
  }

  lemma SignedValue(m: nat, j: nat)
    ensures Signed(m, j) == Sign(j) * Choose(m, j)
  {
    assert Unfold(0);
  }

  lemma SignedPascal(m: nat, j: nat)
    ensures Signed(m, 0) == 1
    ensures j > 0 ==> Signed(m + 1, j) == Signed(m, j) - Signed(m, j - 1)
  {
    SignedValue(m, 0);
    if j > 0 {
      SignedValue(m + 1, j);
      SignedValue(m, j);
      SignedValue(m, j - 1);
      Distribute(Sign(j), Choose(m, j - 1), Choose(m, j));
      assert Sign(j - 1) == -Sign(j);
    }
  }

  ghost predicate IsOffset(d: nat, j: nat, e: nat)
  {
    forall t {:trigger Unfold(t)} :: Unfold(t) ==> e == d * j
  }

  /** The exponent d*j of term j; unfolded by OffsetValue. */
  ghost function Offset(d: nat, j: nat): nat
  {
    MulMono(0, j, d);
    assert IsOffset(d, j, d * j);
    var e: nat :| IsOffset(d, j, e);
    e
  }

  lemma OffsetValue(d: nat, j: nat)
    ensures Offset(d, j) == d * j
    ensures Offset(d, j + 1) == Offset(d, j) + d
    ensures Offset(d, 0) == 0
  {
    assert Unfold(0);
    Distribute(d, j, 1);
  }

  /** The first j terms of the binomial expansion of (1 - z^d)^m applied to f. */
  ghost function Expansion(d: nat, m: nat, j: nat, f: Poly): (r: Poly)
    ensures |r| == |f|
  {
    if j == 0 then Zero(|f|) else Add(Expansion(d, m, j - 1, f), Scale(Signed(m, j - 1), Shift(Offset(d, j - 1), f)))
  }

  lemma ExpansionFirst(d: nat, m: nat, f: Poly)
    ensures Expansion(d, m, 1, f) == f
  {
    SignedPascal(m, 0);
    OffsetValue(d, 0);
    ShiftZero(f);
    assert Expansion(d, m, 0, f) == Zero(|f|);
    assert Add(Zero(|f|), Scale(1, f)) == f;
  }

  /** Pascal's rule on the partial expansions. */
  lemma {:induction false} ExpansionPascal(d: nat, m: nat, j: nat, f: Poly)
    ensures Expansion(d, m + 1, j + 1, f)
         == Add(Expansion(d, m, j + 1, f), Scale(-1, Shift(d, Expansion(d, m, j, f))))
  {
    if j == 0 {
      ExpansionFirst(d, m, f);
      ExpansionFirst(d, m + 1, f);
      SubtractZero(d, f);
    } else {
      ExpansionPascal(d, m, j - 1, f);
      var i := j - 1;
      var a, b, t, s := Expansion(d, m, j, f), Expansion(d, m, i, f), Shift(Offset(d, i), f), Shift(Offset(d, j), f);
      OffsetValue(d, i);
      ShiftShift(d, Offset(d, i), f);
      SignedPascal(m, j);
      ExpansionNext(d, m, i, f);
      ExpansionNext(d, m, j, f);
      ExpansionNext(d, m + 1, j, f);
      PascalStep(d, a, b, t, s, Signed(m, j), Signed(m, i));
    }
  }

  lemma SubtractZero(d: nat, f: Poly)
    ensures Add(f, Scale(-1, Shift(d, Zero(|f|)))) == f
  {
    assert Shift(d, Zero(|f|)) == Zero(|f|);
  }

  lemma ExpansionNext(d: nat, m: nat, j: nat, f: Poly)
    ensures Expansion(d, m, j + 1, f) == Add(Expansion(d, m, j, f), Scale(Signed(m, j), Shift(Offset(d, j), f)))
  {
  }

  lemma PascalStep(d: nat, a: Poly, b: Poly, t: Poly, s: Poly, x: int, y: int)
    requires |a| == |b| == |t| == |s| && Shift(d, t) == s
    ensures Add(Add(a, Scale(-1, Shift(d, b))), Scale(x - y, s))
         == Add(Add(a, Scale(x, s)), Scale(-1, Shift(d, Add(b, Scale(y, t)))))
  {
    ShiftAdd(d, b, Scale(y, t));
    ShiftScale(d, y, t);
    PascalTerm(a, Shift(d, b), s, x, y);
  }

  lemma PascalTerm(a: Poly, b: Poly, s: Poly, x: int, y: int)
    requires |a| == |b| == |s|
    ensures Add(Add(a, Scale(-1, b)), Scale(x - y, s)) == Add(Add(a, Scale(x, s)), Scale(-1, Add(b, Scale(y, s))))
  {
    var l, r := Add(Add(a, Scale(-1, b)), Scale(x - y, s)), Add(Add(a, Scale(x, s)), Scale(-1, Add(b, Scale(y, s))));
    forall k | 0 <= k < |a|
      ensures l[k] == r[k]
    {
      DistributeSub(s[k], x, y);
    }
  }

  /** All m + 1 terms make the power. */
  lemma {:induction false} ExpansionFull(d: nat, m: nat, f: Poly)
    ensures Expansion(d, m, m + 1, f) == Repeat(d, m, f)
  {
    if m == 0 {
      ExpansionFirst(d, 0, f);
    } else {
      var r := Repeat(d, m - 1, f);
      ExpansionFull(d, m - 1, f);
      ExpansionPascal(d, m - 1, m, f);
      SignedTop(m - 1);
      ExpansionNext(d, m - 1, m, f);
      AddNothing(r, Shift(Offset(d, m), f));
      assert Expansion(d, m - 1, m + 1, f) == r;
      OneMinusIsSub(d, r);
    }
  }

  lemma SignedTop(m: nat)
    ensures Signed(m, m + 1) == 0
  {
    SignedValue(m, m + 1);
    ChooseAbove(m, m + 1);
  }

  /** Terms shifted past the precision vanish. */
  lemma {:induction false} ExpansionCut(d: nat, m: nat, j: nat, f: Poly)
    requires d > 0 && j <= m + 1 && |f| <= Offset(d, j)
    ensures Expansion(d, m, j, f) == Repeat(d, m, f)
    decreases m + 1 - j
  {
    if j == m + 1 {
      ExpansionFull(d, m, f);
    } else {
      OffsetValue(d, j);
      ExpansionCut(d, m, j + 1, f);
      ShiftOut(Offset(d, j), f);
      assert Scale(Signed(m, j), Zero(|f|)) == Zero(|f|);
      assert Add(Expansion(d, m, j, f), Zero(|f|)) == Expansion(d, m, j, f);
    }
  }

  /** result[k + degree*j] += scalar * values[k]. */
  method AddShifted(result: Poly, values: Poly, offset: nat, scalar: int) returns (next: Poly)
    requires |result| == |values|
    ensures next == Add(result, Scale(scalar, Shift(offset, values)))
  {
    next := result;
    var k := 0;
    while k < |values| - offset
      invariant 0 <= k && |next| == |values|
      invariant forall i :: 0 <= i < |next| ==>
                  next[i] == result[i] + (if offset <= i < offset + k then scalar * values[i - offset] else 0)
    {
      next := next[k + offset := next[k + offset] + scalar * values[k]];
      k := k + 1;
    }
    assert scalar * 0 == 0;
    assert next == Add(result, Scale(scalar, Shift(offset, values)));
  }

  /** The number of terms the direct expansion keeps. */
  function TermCount(count: nat, precision: nat, degree: nat): nat
    requires degree > 0 && precision > 0
  {
    Min(count, (precision - 1) / degree) + 1
  }

  method ExpandFactor(values: Poly, degree: nat, count: nat) returns (result: Poly)
    requires degree > 0
    ensures result == Repeat(degree, count, values)
  {
    var precision := |values|;
    result := Zero(precision);
    if precision == 0 {
      assert Repeat(degree, count, values) == [];
      return;
    }
    var terms := TermCount(count, precision, degree);
    for j := 0 to terms
      invariant result == Expansion(degree, count, j, values)
    {
      SignedValue(count, j);
      var scalar := Sign(j) * Choose(count, j);
      OffsetValue(degree, j);
      result := AddShifted(result, values, degree * j, scalar);
    }
    if terms == count + 1 {
      ExpansionFull(degree, count, values);
    } else {
      Distribute(degree, (precision - 1) / degree, 1);
      OffsetValue(degree, terms);
      ExpansionCut(degree, count, terms, values);
    }
  }

  /** The direct expansion of well-formed equations gives the same first negative index. */
  method DirectFirstNegative(n: nat, equations: seq<(int, int)>, precision: nat) returns (result: Option<nat>)
    requires WellFormed(equations)
    ensures result == FirstNegativeFrom(SeriesOf(n, Checked(equations), precision), 0)
  {
    var values := Geometric(n, precision);
    ghost var ms := Checked(equations);
    assert ms[..0] == [];
    for i := 0 to |equations|
      invariant values == Powers(ms[..i], Geometric(n, precision))
    {
      assert ms[..i + 1][..i] == ms[..i];
      values := ExpandFactor(values, equations[i].0, equations[i].1);
    }
    assert ms[..|equations|] == ms;
    result := FirstNegativeFrom(values, 0);
  }
}
