/**
 Power series truncated at a precision, and the two evaluations of
 prod (1 - z^d)^m / (1 - z)^n: the sparse recurrence of its logarithmic
 derivative and the direct binomial expansion. Every factor acts on a series by
 shifting and subtracting, so all of them commute.
 */
module Series {
  import opened Arith
  import opened Binomial
  import opened Vectors

  /** Multiplication by z^e. */
  function Shift(e: nat, f: Poly): (r: Poly)
    ensures |r| == |f|
  {
    seq(|f|, k requires 0 <= k < |f| => if k < e then 0 else f[k - e])
  }

  /** Multiplication by 1 - z^e. */
  function OneMinus(e: nat, f: Poly): (r: Poly)
    ensures |r| == |f|
  {
    seq(|f|, k requires 0 <= k < |f| => if k < e then f[k] else f[k] - f[k - e])
  }

  /** z times the derivative. */
  function Theta(f: Poly): (r: Poly)
    ensures |r| == |f|
  {
    seq(|f|, k requires 0 <= k < |f| => k * f[k])
  }

  lemma ShiftAdd(e: nat, f: Poly, g: Poly)
    requires |f| == |g|
    ensures Shift(e, Add(f, g)) == Add(Shift(e, f), Shift(e, g))
  {
  }

  lemma ShiftScale(e: nat, c: int, f: Poly)
    ensures Shift(e, Scale(c, f)) == Scale(c, Shift(e, f))
  {
    assert c * 0 == 0;
  }

  lemma ShiftShift(d: nat, e: nat, f: Poly)
    ensures Shift(d, Shift(e, f)) == Shift(d + e, f)
  {
  }

  lemma ShiftZero(f: Poly)
    ensures Shift(0, f) == f
  {
  }

  /** Beyond the precision nothing remains. */
  lemma ShiftOut(e: nat, f: Poly)
    requires e >= |f|
    ensures Shift(e, f) == Zero(|f|) && (e > 0 ==> OneMinus(e, f) == f)
  {
  }

  lemma OneMinusIsSub(e: nat, f: Poly)
    ensures OneMinus(e, f) == Add(f, Scale(-1, Shift(e, f)))
  {
  }

  lemma OneMinusAdd(e: nat, f: Poly, g: Poly)
    requires |f| == |g|
    ensures OneMinus(e, Add(f, g)) == Add(OneMinus(e, f), OneMinus(e, g))
  {
  }

  lemma OneMinusScale(e: nat, c: int, f: Poly)
    ensures OneMinus(e, Scale(c, f)) == Scale(c, OneMinus(e, f))
  {
    forall k | e <= k < |f|
      ensures OneMinus(e, Scale(c, f))[k] == Scale(c, OneMinus(e, f))[k]
    {
      DistributeSub(c, f[k], f[k - e]);
    }
  }

  lemma OneMinusShift(e: nat, d: nat, f: Poly)
    ensures OneMinus(e, Shift(d, f)) == Shift(d, OneMinus(e, f))
  {
  }

  lemma OneMinusSwap(d: nat, e: nat, f: Poly)
    ensures OneMinus(d, OneMinus(e, f)) == OneMinus(e, OneMinus(d, f))
  {
  }

  /** The product rule for one factor: theta(1 - z^e)f = (1 - z^e)theta f - e z^e f. */
  lemma ThetaOneMinus(e: nat, f: Poly)
    ensures Theta(OneMinus(e, f)) == Add(OneMinus(e, Theta(f)), Scale(-(e as int), Shift(e, f)))
  {
    var l, t, s := OneMinus(e, f), OneMinus(e, Theta(f)), Shift(e, f);
    forall k | 0 <= k < |f|
      ensures Theta(l)[k] == t[k] + -(e as int) * s[k]
    {
      ThetaEntry(e, f, k);
    }
  }

  lemma ThetaEntry(e: nat, f: Poly, k: nat)
    requires k < |f|
    ensures Theta(OneMinus(e, f))[k] == OneMinus(e, Theta(f))[k] + -(e as int) * Shift(e, f)[k]
  {
    if k >= e {
      ThetaTerm(k, e, f[k], f[k - e]);
    }
  }

  lemma ThetaTerm(k: int, e: int, x: int, y: int)
    ensures k * (x - y) == (k * x - (k - e) * y) + (-e) * y
  {
    DistributeSub(k, x, y);
    DistributeSub(y, k, e);
  }

  // -------------------------------------------------------------------- powers

  /** (1 - z^e)^m applied to f. */
  function Repeat(e: nat, m: nat, f: Poly): (r: Poly)
    ensures |r| == |f|
  {
    if m == 0 then f else OneMinus(e, Repeat(e, m - 1, f))
  }

  lemma {:induction false} RepeatOneMinus(e: nat, m: nat, d: nat, f: Poly)
    ensures Repeat(e, m, OneMinus(d, f)) == OneMinus(d, Repeat(e, m, f))
  {
    if m > 0 {
      RepeatOneMinus(e, m - 1, d, f);
      OneMinusSwap(e, d, Repeat(e, m - 1, f));
    }
  }

  lemma {:induction false} RepeatAdd(e: nat, m: nat, f: Poly, g: Poly)
    requires |f| == |g|
    ensures Repeat(e, m, Add(f, g)) == Add(Repeat(e, m, f), Repeat(e, m, g))
  {
    if m > 0 {
      RepeatAdd(e, m - 1, f, g);
      OneMinusAdd(e, Repeat(e, m - 1, f), Repeat(e, m - 1, g));
    }
  }

  lemma {:induction false} RepeatScale(e: nat, m: nat, c: int, f: Poly)
    ensures Repeat(e, m, Scale(c, f)) == Scale(c, Repeat(e, m, f))
  {
    if m > 0 {
      RepeatScale(e, m - 1, c, f);
      OneMinusScale(e, c, Repeat(e, m - 1, f));
    }
  }

  lemma {:induction false} RepeatShift(e: nat, m: nat, d: nat, f: Poly)
    ensures Repeat(e, m, Shift(d, f)) == Shift(d, Repeat(e, m, f))
  {
    if m > 0 {
      RepeatShift(e, m - 1, d, f);
      OneMinusShift(e, d, Repeat(e, m - 1, f));
    }
  }

  lemma {:induction false} RepeatSum(e: nat, m: nat, l: nat, f: Poly)
    ensures Repeat(e, m + l, f) == Repeat(e, m, Repeat(e, l, f))
  {
    if m > 0 {
      RepeatSum(e, m - 1, l, f);
    }
  }

  lemma {:induction false} RepeatRepeat(e: nat, m: nat, d: nat, l: nat, f: Poly)
    ensures Repeat(e, m, Repeat(d, l, f)) == Repeat(d, l, Repeat(e, m, f))
  {
    if l > 0 {
      RepeatOneMinus(e, m, d, Repeat(d, l - 1, f));
      RepeatRepeat(e, m, d, l - 1, f);
    }
  }

  lemma {:induction false} RepeatOut(e: nat, m: nat, f: Poly)
    requires e >= |f| && e > 0
    ensures Repeat(e, m, f) == f
  {
    if m > 0 {
      RepeatOut(e, m - 1, f);
      ShiftOut(e, f);
    }
  }

  ghost predicate IsWeight(e: nat, m: nat, c: int)
  {
    forall t {:trigger Unfold(t)} :: Unfold(t) ==> c == -(m * e as int)
  }

  /** The factor -m*e that differentiating (1 - z^e)^m brings down; unfolded by WeightValue. */
  ghost function Weight(e: nat, m: nat): int
  {
    assert IsWeight(e, m, -(m * e as int));
    var c :| IsWeight(e, m, c);
    c
  }

  lemma WeightValue(e: nat, m: nat)
    ensures Weight(e, m) == -(m * e as int)
    ensures Weight(e, m + 1) == Weight(e, m) - e
    ensures Weight(e, 0) == 0
  {
    assert Unfold(0);
    Distribute(e, m, 1);
  }

  /** The logarithmic derivative of one repeated factor. */
  lemma {:induction false} ThetaRepeat(e: nat, m: nat, f: Poly)
    ensures OneMinus(e, Theta(Repeat(e, m, f)))
         == Add(Repeat(e, m + 1, Theta(f)), Scale(Weight(e, m), Shift(e, Repeat(e, m, f))))
  {
    var n := |f|;
    WeightValue(e, 0);
    if m == 0 {
      assert Add(OneMinus(e, Theta(f)), Scale(0, Shift(e, f))) == OneMinus(e, Theta(f));
    } else {
      var a := Repeat(e, m - 1, f);
      var b := OneMinus(e, a);
      var t := Repeat(e, m, Theta(f));
      var c, u: int := Weight(e, m - 1), -(e as int);
      WeightValue(e, m - 1);
      ThetaRepeat(e, m - 1, f);
      ThetaOneMinus(e, a);
      OneMinusShift(e, e, a);
      ThetaFactor(e, OneMinus(e, Theta(a)), t, Shift(e, a), Shift(e, b), c, u);
    }
  }

  /** (1 - z^e)(x + u*s) for x = t + c*s and (1 - z^e)s = v. */
  lemma ThetaFactor(e: nat, x: Poly, t: Poly, s: Poly, v: Poly, c: int, u: int)
    requires |x| == |t| == |s| == |v| && x == Add(t, Scale(c, s)) && OneMinus(e, s) == v
    ensures OneMinus(e, Add(x, Scale(u, s))) == Add(OneMinus(e, t), Scale(c + u, v))
  {
    OneMinusAdd(e, x, Scale(u, s));
    OneMinusAdd(e, t, Scale(c, s));
    OneMinusScale(e, c, s);
    OneMinusScale(e, u, s);
    AddAssoc(OneMinus(e, t), Scale(c, v), Scale(u, v));
    ScaleSum(c, u, v);
  }

  // -------------------------------------------------------------------- products

  /** The product of 1 - z^d over a list of degrees, applied in order. */
  function Factors(ds: seq<nat>, f: Poly): (r: Poly)
    ensures |r| == |f|
  {
    if |ds| == 0 then f else OneMinus(ds[|ds| - 1], Factors(ds[..|ds| - 1], f))
  }

  lemma FactorsSnoc(ds: seq<nat>, e: nat, f: Poly)
    ensures Factors(ds + [e], f) == OneMinus(e, Factors(ds, f))
  {
    assert (ds + [e])[..|ds|] == ds;
  }

  lemma {:induction false} FactorsOneMinus(ds: seq<nat>, d: nat, f: Poly)
    ensures Factors(ds, OneMinus(d, f)) == OneMinus(d, Factors(ds, f))
  {
    if |ds| > 0 {
      var e, rest := ds[|ds| - 1], ds[..|ds| - 1];
      FactorsOneMinus(rest, d, f);
      OneMinusSwap(e, d, Factors(rest, f));
    }
  }

  lemma {:induction false} FactorsAdd(ds: seq<nat>, f: Poly, g: Poly)
    requires |f| == |g|
    ensures Factors(ds, Add(f, g)) == Add(Factors(ds, f), Factors(ds, g))
  {
    if |ds| > 0 {
      var e, rest := ds[|ds| - 1], ds[..|ds| - 1];
      FactorsAdd(rest, f, g);
      OneMinusAdd(e, Factors(rest, f), Factors(rest, g));
    }
  }

  lemma {:induction false} FactorsScale(ds: seq<nat>, c: int, f: Poly)
    ensures Factors(ds, Scale(c, f)) == Scale(c, Factors(ds, f))
  {
    if |ds| > 0 {
      var e, rest := ds[|ds| - 1], ds[..|ds| - 1];
      FactorsScale(rest, c, f);
      OneMinusScale(e, c, Factors(rest, f));
    }
  }

  lemma {:induction false} FactorsShift(ds: seq<nat>, d: nat, f: Poly)
    ensures Factors(ds, Shift(d, f)) == Shift(d, Factors(ds, f))
  {
    if |ds| > 0 {
      var e, rest := ds[|ds| - 1], ds[..|ds| - 1];
      FactorsShift(rest, d, f);
      OneMinusShift(e, d, Factors(rest, f));
    }
  }

  lemma {:induction false} FactorsRepeat(ds: seq<nat>, e: nat, m: nat, f: Poly)
    ensures Factors(ds, Repeat(e, m, f)) == Repeat(e, m, Factors(ds, f))
  {
    if |ds| > 0 {
      var d, rest := ds[|ds| - 1], ds[..|ds| - 1];
      FactorsRepeat(rest, e, m, f);
      RepeatOneMinus(e, m, d, Factors(rest, f));
    }
  }

  // ------------------------------------------------------------------ the series

  /** A system of equations: (degree, multiplicity) pairs. */
  type Equations = seq<(nat, nat)>

  function Powers(ms: Equations, f: Poly): (r: Poly)
    ensures |r| == |f|
  {
    if |ms| == 0 then f
    else
      var (e, m) := ms[|ms| - 1];
      Repeat(e, m, Powers(ms[..|ms| - 1], f))
  }

  /** Coefficient k of 1/(1 - z)^n. */
  function Multiset(n: nat, k: nat): nat
  {
    if n == 0 then (if k == 0 then 1 else 0) else Choose(n + k - 1, k)
  }

  function Geometric(n: nat, precision: nat): (r: Poly)
    ensures |r| == precision
  {
    seq(precision, k requires 0 <= k < precision => Multiset(n, k))
  }

  /** prod (1 - z^d)^m / (1 - z)^n up to the precision. */
  function SeriesOf(n: nat, ms: Equations, precision: nat): (r: Poly)
    ensures |r| == precision
  {
    Powers(ms, Geometric(n, precision))
  }

  /** The geometric factor is the inverse of (1 - z)^n. */
  lemma {:induction false} GeometricInverse(n: nat, precision: nat)
    ensures Repeat(1, n, Geometric(n, precision)) == Geometric(0, precision)
  {
    if n > 0 {
      GeometricInverse(n - 1, precision);
      GeometricStep(n, precision);
      RepeatOneMinus(1, n - 1, 1, Geometric(n, precision));
    }
  }

  lemma GeometricStep(n: nat, precision: nat)
    requires n > 0
    ensures OneMinus(1, Geometric(n, precision)) == Geometric(n - 1, precision)
  {
    forall k | 0 <= k < precision
      ensures OneMinus(1, Geometric(n, precision))[k] == Multiset(n - 1, k)
    {
      if k > 0 {
        assert Choose(n + k - 1, k) == Choose(n + k - 2, k - 1) + Choose(n + k - 2, k);
        if n == 1 {
          ChooseAbove(k - 1, k);
        }
      }
    }
  }

  /** The logarithmic derivative of the geometric factor: (1 - z)theta G = n z G. */
  lemma GeometricLog(n: nat, precision: nat)
    ensures OneMinus(1, Theta(Geometric(n, precision))) == Scale(n, Shift(1, Geometric(n, precision)))
  {
    forall k | 0 <= k < precision
      ensures OneMinus(1, Theta(Geometric(n, precision)))[k] == Scale(n, Shift(1, Geometric(n, precision)))[k]
    {
      if k > 0 {
        var x := Multiset(n, k - 1);
        if n > 0 {
          Absorb(n + k - 1, k);
        } else {
          assert k == 1 || x == 0;
        }
        Distribute(x, n, k - 1);
      }
    }
  }

  // ------------------------------------------------- the logarithmic derivative

  function Degrees(ms: Equations): (ds: seq<nat>)
    ensures |ds| == |ms|
  {
    seq(|ms|, i requires 0 <= i < |ms| => ms[i].0)
  }

  function Without(ds: seq<nat>, j: nat): (r: seq<nat>)
    requires j < |ds|
    ensures |r| == |ds| - 1
  {
    ds[..j] + ds[j + 1..]
  }

  /** The contribution of equation j to the right-hand side. */
  ghost function LogTerm(ms: Equations, j: nat, f: Poly): (r: Poly)
    requires j < |ms|
    ensures |r| == |f|
  {
    Scale(Weight(ms[j].0, ms[j].1), Shift(ms[j].0, Factors(Without(Degrees(ms), j), OneMinus(1, f))))
  }

  /** n z prod(1 - z^d) f and the first j terms of the equations. */
  ghost function LogSum(n: nat, ms: Equations, j: nat, f: Poly): (r: Poly)
    requires j <= |ms|
    ensures |r| == |f|
  {
    if j == 0 then Scale(n, Shift(1, Factors(Degrees(ms), f))) else Add(LogSum(n, ms, j - 1, f), LogTerm(ms, j - 1, f))
  }

  /** Multiplying the right-hand side of a smaller system by a further factor. */
  lemma {:induction false} LogSumGrow(n: nat, rest: Equations, e: nat, m: nat, j: nat, f: Poly)
    requires j <= |rest|
    ensures Repeat(e, m + 1, LogSum(n, rest, j, f)) == LogSum(n, rest + [(e, m)], j, Repeat(e, m, f))
  {
    var ms := rest + [(e, m)];
    var g := Repeat(e, m, f);
    var dr := Degrees(rest);
    assert Degrees(ms) == dr + [e];
    if j == 0 {
      LogStart(n, dr, e, m, f);
    } else {
      LogSumGrow(n, rest, e, m, j - 1, f);
      RepeatAdd(e, m + 1, LogSum(n, rest, j - 1, f), LogTerm(rest, j - 1, f));
      LogTermGrow(rest, e, m, j - 1, f);
    }
  }

  lemma LogStart(n: nat, ds: seq<nat>, e: nat, m: nat, f: Poly)
    ensures Repeat(e, m + 1, Scale(n, Shift(1, Factors(ds, f)))) == Scale(n, Shift(1, Factors(ds + [e], Repeat(e, m, f))))
  {
    RepeatScale(e, m + 1, n, Shift(1, Factors(ds, f)));
    RepeatShift(e, m + 1, 1, Factors(ds, f));
    FactorsRepeat(ds, e, m + 1, f);
    FactorsOneMinus(ds, e, Repeat(e, m, f));
    FactorsSnoc(ds, e, Repeat(e, m, f));
  }

  lemma LogTermGrow(rest: Equations, e: nat, m: nat, j: nat, f: Poly)
    requires j < |rest|
    ensures Repeat(e, m + 1, LogTerm(rest, j, f)) == LogTerm(rest + [(e, m)], j, Repeat(e, m, f))
  {
    WithoutSnoc(rest, e, m, j);
    TermGrow(Without(Degrees(rest), j), rest[j].0, Weight(rest[j].0, rest[j].1), e, m, f);
  }

  lemma WithoutSnoc(rest: Equations, e: nat, m: nat, j: nat)
    requires j < |rest|
    ensures Without(Degrees(rest + [(e, m)]), j) == Without(Degrees(rest), j) + [e]
  {
  }

  lemma TermGrow(w: seq<nat>, d: nat, c: int, e: nat, m: nat, f: Poly)
    ensures Repeat(e, m + 1, Scale(c, Shift(d, Factors(w, OneMinus(1, f)))))
         == Scale(c, Shift(d, Factors(w + [e], OneMinus(1, Repeat(e, m, f)))))
  {
    var g, h := Repeat(e, m, f), OneMinus(1, f);
    RepeatScale(e, m + 1, c, Shift(d, Factors(w, h)));
    RepeatShift(e, m + 1, d, Factors(w, h));
    FactorsRepeat(w, e, m + 1, h);
    RepeatOneMinus(e, m, 1, f);
    FactorsOneMinus(w, e, OneMinus(1, g));
    FactorsSnoc(w, e, OneMinus(1, g));
  }

  /**
   Logarithmic differentiation: with Q = (1 - z)prod(1 - z^d), Q theta F equals the
   sum over the factors applied to F.
   */
  lemma {:induction false} LogDerivative(n: nat, ms: Equations, precision: nat)
    ensures var f := SeriesOf(n, ms, precision);
            OneMinus(1, Factors(Degrees(ms), Theta(f))) == LogSum(n, ms, |ms|, f)
  {
    if |ms| == 0 {
      GeometricLog(n, precision);
    } else {
      var last := |ms| - 1;
      var rest, e, m := ms[..last], ms[last].0, ms[last].1;
      var g := SeriesOf(n, rest, precision);
      LogDerivative(n, rest, precision);
      assert ms == rest + [(e, m)];
      LogStep(n, rest, e, m, g);
    }
  }

  lemma LogStep(n: nat, rest: Equations, e: nat, m: nat, g: Poly)
    requires OneMinus(1, Factors(Degrees(rest), Theta(g))) == LogSum(n, rest, |rest|, g)
    ensures var ms := rest + [(e, m)];
            var f := Repeat(e, m, g);
            OneMinus(1, Factors(Degrees(ms), Theta(f))) == LogSum(n, ms, |ms|, f)
  {
    var ms := rest + [(e, m)];
    var f, dr, t := Repeat(e, m, g), Degrees(rest), Theta(g);
    assert Degrees(ms) == dr + [e];
    assert Without(Degrees(ms), |rest|) == dr;
    ProductRule(dr, e, m, g);
    FactorsRepeat(dr, e, m + 1, t);
    RepeatOneMinus(e, m + 1, 1, Factors(dr, t));
    LogSumGrow(n, rest, e, m, |rest|, g);
  }

  /** Applying all factors to the derivative of the extended series. */
  lemma ProductRule(dr: seq<nat>, e: nat, m: nat, g: Poly)
    ensures var f := Repeat(e, m, g);
            OneMinus(1, Factors(dr + [e], Theta(f)))
            == Add(OneMinus(1, Factors(dr, Repeat(e, m + 1, Theta(g)))),
                   Scale(Weight(e, m), Shift(e, Factors(dr, OneMinus(1, f)))))
  {
    var f, c := Repeat(e, m, g), Weight(e, m);
    var t, v := Repeat(e, m + 1, Theta(g)), Scale(c, Shift(e, f));
    FactorsSnoc(dr, e, Theta(f));
    FactorsOneMinus(dr, e, Theta(f));
    ThetaRepeat(e, m, g);
    FactorsAdd(dr, t, v);
    OneMinusAdd(1, Factors(dr, t), Factors(dr, v));
    LastTerm(dr, c, e, f);
  }

  lemma LastTerm(ds: seq<nat>, c: int, e: nat, f: Poly)
    ensures OneMinus(1, Factors(ds, Scale(c, Shift(e, f)))) == Scale(c, Shift(e, Factors(ds, OneMinus(1, f))))
  {
    FactorsScale(ds, c, Shift(e, f));
    FactorsShift(ds, e, f);
    OneMinusScale(1, c, Shift(e, Factors(ds, f)));
    OneMinusShift(1, e, Factors(ds, f));
    FactorsOneMinus(ds, 1, f);
  }
}
