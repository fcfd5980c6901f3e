/**
 The Newton coefficients of the negated corner gap, as a function of the base: all of
 them are positive from four summands on, the degree is one less than the number of
 summands, and they reproduce the gap at every base.
 */
module CarryNewton {
  import opened Arith
  import opened Binomial
  import opened CarryReversibility

  /** The j-th forward difference of -gap(n, base) in the base. */
  function Difference(n: nat, j: nat, base: nat): int
    requires n >= 2 && base >= 2
  {
    if j == 0 then -Gap(n, base) else Difference(n, j - 1, base + 1) - Difference(n, j - 1, base)
  }

  /** The j-th forward difference of C(base + n - 2, n). */
  function ChooseDifference(n: nat, j: nat, base: nat): nat
    requires n >= 2 && base >= 2
  {
    if j <= n then Choose(base + n - 2, n - j) else 0
  }

  lemma ChooseDifferenceStep(n: nat, j: nat, base: nat)
    requires n >= 2 && base >= 2
    ensures ChooseDifference(n, j + 1, base) == ChooseDifference(n, j, base + 1) - ChooseDifference(n, j, base)
  {
  }

  /** The factor (n - 2)*(2^n - n - 1) of the gap recurrence. */
  function Forcing(n: nat): int
  {
    (n - 2) * (Pow(2, n) - n - 1)
  }

  /** j times the previous difference one base up. */
  function Carried(n: nat, j: nat, base: nat): int
    requires n >= 2 && base >= 2
  {
    if j == 0 then 0 else 2 * j * Difference(n, j - 1, base + 1)
  }

  /** The gap recurrence survives differencing, by Leibniz' rule for the linear factor. */
  lemma {:induction false} DifferenceRecurrence(n: nat, j: nat, base: nat)
    requires n >= 2 && base >= 2
    ensures (n + 1) * Difference(n + 1, j, base)
         == (2 * base + n) * Difference(n, j, base) + Carried(n, j, base) + Forcing(n) * ChooseDifference(n, j, base)
    decreases j
  {
    if j == 0 {
      GapRecurrence(n, base);
      Assoc(n - 2, Pow(2, n) - n - 1, Choose(base + n - 2, n));
    } else {
      var i := j - 1;
      DifferenceRecurrence(n, i, base);
      DifferenceRecurrence(n, i, base + 1);
      ChooseDifferenceStep(n, i, base);
      LeibnizStep(n + 1, Difference(n + 1, i, base + 1), Difference(n + 1, i, base), 2 * base + n,
        Difference(n, i, base + 1), Difference(n, i, base), Carried(n, i, base + 1), Carried(n, i, base),
        Forcing(n), ChooseDifference(n, i, base + 1), ChooseDifference(n, i, base));
      CarriedStep(n, i, base);
    }
  }

  lemma LeibnizStep(m: int, x: int, y: int, c: int, u: int, v: int, p: int, q: int, f: int, s: int, t: int)
    requires m * x == (c + 2) * u + p + f * s && m * y == c * v + q + f * t
    ensures m * (x - y) == c * (u - v) + (2 * u + p - q) + f * (s - t)
  {
    DistributeSub(m, x, y);
    DistributeSub(c, u, v);
    Distribute(u, c, 2);
    DistributeSub(f, s, t);
  }

  lemma CarriedStep(n: nat, i: nat, base: nat)
    requires n >= 2 && base >= 2
    ensures 2 * Difference(n, i, base + 1) + Carried(n, i, base + 1) - Carried(n, i, base) == Carried(n, i + 1, base)
  {
    if i > 0 {
      var a, b := Difference(n, i - 1, base + 2), Difference(n, i - 1, base + 1);
      DistributeSub(2 * i, a, b);
      Distribute(a - b, 2 * i, 2);
    }
  }

  lemma {:induction false} ZeroDifference(j: nat, base: nat)
    requires base >= 2
    ensures Difference(3, j, base) == 0
    decreases j
  {
    if j == 0 {
      GapSign(3, base);
    } else {
      ZeroDifference(j - 1, base + 1);
      ZeroDifference(j - 1, base);
    }
  }

  /** Four summands: the gap is -C(base + 1, 3), and so are its differences. */
  lemma FourSummands(j: nat, base: nat)
    requires base >= 2
    ensures Difference(4, j, base) == ChooseDifference(3, j, base)
  {
    DifferenceRecurrence(3, j, base);
    ZeroDifference(j, base);
    if j > 0 {
      ZeroDifference(j - 1, base + 1);
    }
    assert Pow(2, 3) == 2 * Pow(2, 2) && Pow(2, 2) == 2 * Pow(2, 1) && Pow(2, 1) == 2 * Pow(2, 0);
    assert Forcing(3) == 4;
  }

  /**
   Every difference below the degree is positive at every base, and the degree is one
   less than the number of summands.
   */
  lemma {:induction false} DifferenceSign(n: nat, j: nat, base: nat)
    requires n >= 4 && base >= 2
    ensures j < n ==> Difference(n, j, base) > 0
    ensures j >= n ==> Difference(n, j, base) == 0
    decreases n
  {
    if n == 4 {
      FourSummands(j, base);
      if j < 4 {
        ChoosePositive(base + 1, 3 - j);
      }
    } else {
      var m := n - 1;
      DifferenceRecurrence(m, j, base);
      DifferenceSign(m, j, base);
      if j > 0 {
        DifferenceSign(m, j - 1, base + 1);
      }
      PowTwoLarge(m);
      MulMono(1, m - 2, Pow(2, m) - m - 1);
      if j <= m {
        ChoosePositive(base + m - 2, m - j);
      }
      SignStep(n, Difference(n, j, base), 2 * base + m, Difference(m, j, base), j,
        if j > 0 then Difference(m, j - 1, base + 1) else 0, Forcing(m), ChooseDifference(m, j, base));
    }
  }

  lemma SignStep(n: int, d: int, c: int, u: int, j: nat, v: int, f: int, s: nat)
    requires n >= 5 && c > 0 && f >= 1
    requires n * d == c * u + (if j == 0 then 0 else 2 * j * v) + f * s
    requires (j < n - 1 ==> u > 0) && (j >= n - 1 ==> u == 0)
    requires j > 0 ==> (j - 1 < n - 1 ==> v > 0) && (j - 1 >= n - 1 ==> v == 0)
    requires (j <= n - 1 ==> s >= 1) && (j > n - 1 ==> s == 0)
    ensures j < n ==> d > 0
    ensures j >= n ==> d == 0
  {
    if j < n {
      MulMono(0, u, c);
      MulMono(1, f, s);
      if j > 0 {
        MulMono(0, v, 2 * j);
      }
      PositiveProduct(n, d);
    } else {
      assert c * 0 == 0 && 2 * j * 0 == 0 && f * 0 == 0;
      SmallMultiple(n, d);
    }
  }

  lemma PositiveProduct(n: int, d: int)
    requires n > 0 && n * d > 0
    ensures d > 0
  {
    if d <= 0 {
      MulMono(d, 0, n);
    }
  }

  // --------------------------------------------------------- the coefficient loop

  /** -gap(n, base) for `count` consecutive bases from `base` on. */
  function Samples(n: nat, j: nat, base: nat, count: nat): (r: seq<int>)
    requires n >= 2 && base >= 2
    ensures |r| == count
  {
    seq(count, i requires 0 <= i < count => Difference(n, j, base + i))
  }

  lemma DifferenceNext(n: nat, j: nat, base: nat)
    requires n >= 2 && base >= 2
    ensures Difference(n, j + 1, base) == Difference(n, j, base + 1) - Difference(n, j, base)
  {
  }

  /** Collecting first entries while differencing the samples. */
  method NewtonCoefficients(samples: seq<int>, ghost n: nat, ghost base: nat) returns (coefficients: seq<int>)
    requires n >= 2 && base >= 2 && samples == Samples(n, 0, base, |samples|)
    ensures |coefficients| == |samples|
    ensures forall j :: 0 <= j < |samples| ==> coefficients[j] == Difference(n, j, base)
  {
    coefficients := [];
    var values := samples;
    while |values| > 0
      invariant |coefficients| + |values| == |samples| && values == Samples(n, |coefficients|, base, |values|)
      invariant forall j :: 0 <= j < |coefficients| ==> coefficients[j] == Difference(n, j, base)
      decreases |values|
    {
      ghost var j := |coefficients|;
      assert values[0] == Difference(n, j, base + 0);
      coefficients := coefficients + [values[0]];
      var next := seq(|values| - 1, i requires 0 <= i < |values| - 1 => values[i + 1] - values[i]);
      forall i | 0 <= i < |next|
        ensures next[i] == Samples(n, j + 1, base, |next|)[i]
      {
        assert values[i + 1] == Difference(n, j, base + (i + 1)) && values[i] == Difference(n, j, base + i);
        assert base + (i + 1) == base + i + 1;
        DifferenceNext(n, j, base + i);
      }
      values := next;
    }
  }

  /** The sum of coefficient j times C(u, j) for j < count. */
  function NewtonSum(n: nat, base: nat, u: nat, count: nat): int
    requires n >= 2 && base >= 2
  {
    if count == 0 then 0 else NewtonSum(n, base, u, count - 1) + Difference(n, count - 1, base) * Choose(u, count - 1)
  }

  /** The same sum over the differences of order i. */
  function NewtonFrom(n: nat, i: nat, base: nat, u: nat, count: nat): int
    requires n >= 2 && base >= 2
  {
    if count == 0 then 0 else NewtonFrom(n, i, base, u, count - 1) + Difference(n, i + count - 1, base) * Choose(u, count - 1)
  }

  /** Pascal's rule: one base further is the sum with one difference more. */
  lemma {:induction false} NewtonPascal(n: nat, i: nat, base: nat, u: nat, count: nat)
    requires n >= 2 && base >= 2
    ensures NewtonFrom(n, i, base, u + 1, count + 1) == NewtonFrom(n, i, base, u, count + 1) + NewtonFrom(n, i + 1, base, u, count)
    decreases count
  {
    if count == 0 {
      assert NewtonFrom(n, i, base, u + 1, 0) == NewtonFrom(n, i, base, u, 0) == 0;
      assert Choose(u + 1, 0) == Choose(u, 0) == 1;
    } else {
      NewtonPascal(n, i, base, u, count - 1);
      Distribute(Difference(n, i + count, base), Choose(u, count - 1), Choose(u, count));
      assert i + 1 + count - 1 == i + count;
    }
  }

  /** Newton's formula: the coefficients at one base give the value u bases further. */
  lemma {:induction false} NewtonValue(n: nat, i: nat, base: nat, u: nat)
    requires n >= 2 && base >= 2
    ensures NewtonFrom(n, i, base, u, u + 1) == Difference(n, i, base + u)
    decreases u
  {
    if u == 0 {
      assert NewtonFrom(n, i, base, 0, 0) == 0 && Choose(0, 0) == 1;
    } else {
      NewtonValue(n, i, base, u - 1);
      NewtonValue(n, i + 1, base, u - 1);
      NewtonPascal(n, i, base, u - 1, u);
      NewtonBeyond(n, i, base, u - 1);
      DifferenceNext(n, i, base + (u - 1));
    }
  }

  /** Terms past the offset vanish. */
  lemma NewtonBeyond(n: nat, i: nat, base: nat, u: nat)
    requires n >= 2 && base >= 2
    ensures NewtonFrom(n, i, base, u, u + 2) == NewtonFrom(n, i, base, u, u + 1)
  {
    ChooseAbove(u, u + 1);
  }

  lemma {:induction false} SumIsFrom(n: nat, base: nat, u: nat, count: nat)
    requires n >= 2 && base >= 2
    ensures NewtonSum(n, base, u, count) == NewtonFrom(n, 0, base, u, count)
  {
    if count > 0 {
      SumIsFrom(n, base, u, count - 1);
    }
  }

  /** Evaluating the Newton form at any base gives the negated gap there. */
  lemma NewtonEvaluation(n: nat, base: nat)
    requires n >= 2 && base >= 2
    ensures NewtonSum(n, 2, base - 2, base - 1) == -Gap(n, base)
  {
    SumIsFrom(n, 2, base - 2, base - 1);
    NewtonValue(n, 0, 2, base - 2);
  }
}
