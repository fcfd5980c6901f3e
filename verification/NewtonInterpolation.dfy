/**
 Newton interpolation modulo a prime: divided differences that overwrite the list
 of values from the back, the Horner evaluation of the Newton form, and the degree
 that the last nonzero difference certifies.
 */
module NewtonInterpolation {
  import opened Arith
  import opened Units
  import opened Vectors
  import opened Polynomials
  import opened Wrappers

  function RatioRule(u: int, v: int, d: int, p: int): int
    requires p > 0
  {
    match Inverse(d % p, p)
    case Some(w) => (u - v) * w % p
    case None => 0
  }

  ghost predicate IsRatio(u: int, v: int, d: int, p: int, r: int)
    requires p > 0
  {
    forall t {:trigger Unfold(t)} :: Unfold(t) ==> r == RatioRule(u, v, d, p)
  }

  /** (u - v)/d modulo p, for the invertible d that the loops meet; unfolded by RatioValue. */
  ghost function Ratio(u: int, v: int, d: int, p: int): int
    requires p > 0
  {
    assert IsRatio(u, v, d, p, RatioRule(u, v, d, p));
    var r :| IsRatio(u, v, d, p, r);
    r
  }

  /** The divided difference of the window of j + 1 points that ends at i. */
  ghost function Divided(xs: seq<int>, ys: seq<int>, i: nat, j: nat, p: int): int
    requires |xs| == |ys| && j <= i < |xs| && p > 0
    decreases j
  {
    if j == 0 then ys[i]
    else Ratio(Divided(xs, ys, i, j - 1, p), Divided(xs, ys, i - 1, j - 1, p), xs[i] - xs[i - j], p)
  }

  ghost predicate DistinctMod(xs: seq<int>, p: int)
    requires p > 0
  {
    forall i, j :: 0 <= i < j < |xs| ==> !Cong(xs[i], xs[j], p)
  }

  lemma ApartUnit(x: int, y: int, p: int)
    requires Prime(p) && !Cong(x, y, p)
    ensures Coprime(x - y, p)
  {
    if Cong(x - y, 0, p) {
      CongAdd(x - y, 0, y, y, p);
    }
    PrimeUnit(x - y, p);
  }

  lemma RatioValue(u: int, v: int, d: int, p: int)
    requires p > 0 && Coprime(d, p)
    ensures Inverse(d % p, p).Some? && Ratio(u, v, d, p) == (u - v) * Inverse(d % p, p).value % p
    ensures Cong(Ratio(u, v, d, p) * d, u - v, p)
  {
    assert Unfold(0);
    ModCong(d, p);
    CoprimeMod(d, d % p, p);
    InverseCorrect(d % p, p);
    var w := Inverse(d % p, p).value;
    RatioCong(u - v, w, d, d % p, Ratio(u, v, d, p), p);
  }

  /** r = e*w with w inverse to c = d gives r*d = e. */
  lemma RatioCong(e: int, w: int, d: int, c: int, r: int, p: int)
    requires p > 0 && r == e * w % p && Cong(c, d, p) && Cong(c * w, 1, p)
    ensures Cong(r * d, e, p)
  {
    ModCong(e * w, p);
    CongMul(r, e * w, d, c, p);
    CongScale(e, c * w, 1, p);
    Assoc(e, w, c);
  }

  /** The assignment of the inner loop computes the next difference, and its inverse exists. */
  lemma DividedValue(xs: seq<int>, ys: seq<int>, i: nat, j: nat, p: int)
    requires |xs| == |ys| && 0 < j <= i < |xs| && Prime(p) && DistinctMod(xs, p)
    ensures var inverse := Inverse((xs[i] - xs[i - j]) % p, p);
            inverse.Some? && Divided(xs, ys, i, j, p)
              == (Divided(xs, ys, i, j - 1, p) - Divided(xs, ys, i - 1, j - 1, p)) * inverse.value % p
  {
    assert !Cong(xs[i - j], xs[i], p);
    ApartUnit(xs[i], xs[i - j], p);
    RatioValue(Divided(xs, ys, i, j - 1, p), Divided(xs, ys, i - 1, j - 1, p), xs[i] - xs[i - j], p);
  }

  lemma DividedStep(xs: seq<int>, ys: seq<int>, i: nat, j: nat, d: int, p: int)
    requires |xs| == |ys| && 0 < j <= i < |xs| && Prime(p) && DistinctMod(xs, p) && d == xs[i] - xs[i - j]
    ensures Cong(Divided(xs, ys, i, j, p) * d, Divided(xs, ys, i, j - 1, p) - Divided(xs, ys, i - 1, j - 1, p), p)
  {
    assert !Cong(xs[i - j], xs[i], p);
    ApartUnit(xs[i], xs[i - j], p);
    RatioValue(Divided(xs, ys, i, j - 1, p), Divided(xs, ys, i - 1, j - 1, p), d, p);
  }

  // ---------------------------------------------------------------- node products

  /** The product of x - xs[r] for lo <= r < hi. */
  function Nodes(xs: seq<int>, lo: nat, hi: nat, x: int): int
    requires lo <= hi <= |xs|
    decreases hi
  {
    if hi == lo then 1 else Nodes(xs, lo, hi - 1, x) * (x - xs[hi - 1])
  }

  lemma NodesSplit(xs: seq<int>, lo: nat, hi: nat, x: int)
    requires lo <= hi <= |xs|
    ensures lo == hi ==> Nodes(xs, lo, hi, x) == 1
    ensures lo < hi ==> Nodes(xs, lo, hi, x) == Nodes(xs, lo, hi - 1, x) * (x - xs[hi - 1])
  {
  }

  lemma {:induction false} NodesFront(xs: seq<int>, lo: nat, hi: nat, x: int)
    requires lo < hi <= |xs|
    ensures Nodes(xs, lo, hi, x) == (x - xs[lo]) * Nodes(xs, lo + 1, hi, x)
    decreases hi
  {
    NodesSplit(xs, lo, hi, x);
    NodesSplit(xs, lo + 1, hi, x);
    if hi > lo + 1 {
      NodesFront(xs, lo, hi - 1, x);
      Assoc(x - xs[lo], Nodes(xs, lo + 1, hi - 1, x), x - xs[hi - 1]);
    } else {
      NodesSplit(xs, lo, lo, x);
    }
  }

  lemma {:induction false} NodesVanish(xs: seq<int>, lo: nat, hi: nat, r: nat)
    requires lo <= r < hi <= |xs|
    ensures Nodes(xs, lo, hi, xs[r]) == 0
    decreases hi
  {
    NodesSplit(xs, lo, hi, xs[r]);
    if r < hi - 1 {
      NodesVanish(xs, lo, hi - 1, r);
    }
  }

  // ------------------------------------------------------------------- windows

  /** The Newton form on the points lo..hi, as the differences define it. */
  ghost function Window(xs: seq<int>, ys: seq<int>, lo: nat, hi: nat, x: int, p: int): int
    requires |xs| == |ys| && lo <= hi < |xs| && p > 0
    decreases hi
  {
    if hi == lo then ys[lo]
    else Window(xs, ys, lo, hi - 1, x, p) + Divided(xs, ys, hi, hi - lo, p) * Nodes(xs, lo, hi, x)
  }

  lemma WindowSplit(xs: seq<int>, ys: seq<int>, lo: nat, hi: nat, x: int, p: int)
    requires |xs| == |ys| && lo <= hi < |xs| && p > 0
    ensures lo == hi ==> Window(xs, ys, lo, hi, x, p) == ys[lo]
    ensures lo < hi ==>
              (Window(xs, ys, lo, hi, x, p)
               == Window(xs, ys, lo, hi - 1, x, p) + Divided(xs, ys, hi, hi - lo, p) * Nodes(xs, lo, hi, x))
  {
  }

  /** Moving the window by one point changes the form by one difference. */
  lemma {:induction false} WindowShift(xs: seq<int>, ys: seq<int>, lo: nat, hi: nat, x: int, d: int, p: int)
    requires |xs| == |ys| && lo < hi < |xs| && Prime(p) && DistinctMod(xs, p) && d == xs[hi] - xs[lo]
    ensures Cong(Window(xs, ys, lo + 1, hi, x, p) - Window(xs, ys, lo, hi - 1, x, p),
                 Divided(xs, ys, hi, hi - lo, p) * (d * Nodes(xs, lo + 1, hi, x)), p)
    decreases hi
  {
    DividedStep(xs, ys, hi, hi - lo, d, p);
    WindowSplit(xs, ys, lo + 1, hi, x, p);
    WindowSplit(xs, ys, lo, hi - 1, x, p);
    NodesSplit(xs, lo + 1, hi, x);
    if hi > lo + 1 {
      var s, t, e := x - xs[lo], x - xs[hi - 1], xs[hi - 1] - xs[lo];
      WindowShift(xs, ys, lo, hi - 1, x, e, p);
      NodesFront(xs, lo, hi - 1, x);
      ShiftStep(Window(xs, ys, lo + 1, hi - 1, x, p), Window(xs, ys, lo, hi - 2, x, p),
        Divided(xs, ys, hi - 1, hi - 1 - lo, p), Divided(xs, ys, hi, hi - lo - 1, p), Divided(xs, ys, hi, hi - lo, p),
        d, s, t, e, Nodes(xs, lo + 1, hi - 1, x), Nodes(xs, lo + 1, hi, x), Nodes(xs, lo, hi - 1, x),
        Window(xs, ys, lo + 1, hi, x, p), Window(xs, ys, lo, hi - 1, x, p), p);
    }
  }

  lemma ShiftStep(a: int, b: int, u: int, v: int, c: int, d: int, s: int, t: int, e: int, n: int, w: int, z: int, f: int, g: int, p: int)
    requires p > 0 && f == a + v * w && g == b + u * z && e == s - t && w == n * t && z == s * n
    requires Cong(a - b, u * (e * n), p) && Cong(c * d, v - u, p)
    ensures Cong(f - g, c * (d * w), p)
  {
    Assoc(c, d, w);
    CongMul(c * d, v - u, w, w, p);
    CongAdd(a - b, u * (e * n), v * w - u * z, v * w - u * z, p);
    DistributeSub(n, s, t);
    DistributeSub(u, z, w);
    DistributeSub(w, v, u);
    assert e * n == z - w;
    assert u * (e * n) == u * z - u * w;
  }

  /** The form on a window reproduces its values. */
  lemma {:induction false} WindowInterpolates(xs: seq<int>, ys: seq<int>, lo: nat, hi: nat, i: nat, p: int)
    requires |xs| == |ys| && lo <= i <= hi < |xs| && Prime(p) && DistinctMod(xs, p)
    ensures Cong(Window(xs, ys, lo, hi, xs[i], p), ys[i], p)
    decreases hi - lo
  {
    WindowSplit(xs, ys, lo, hi, xs[i], p);
    if lo < hi {
      var x, c := xs[i], Divided(xs, ys, hi, hi - lo, p);
      if i < hi {
        WindowInterpolates(xs, ys, lo, hi - 1, i, p);
        NodesVanish(xs, lo, hi, i);
        assert c * 0 == 0;
      } else {
        WindowInterpolates(xs, ys, lo + 1, hi, i, p);
        WindowShift(xs, ys, lo, hi, x, x - xs[lo], p);
        NodesFront(xs, lo, hi, x);
        LastPoint(Window(xs, ys, lo + 1, hi, x, p), Window(xs, ys, lo, hi - 1, x, p), c * Nodes(xs, lo, hi, x), ys[i], p);
      }
    }
  }

  lemma LastPoint(a: int, b: int, c: int, y: int, p: int)
    requires p > 0 && Cong(a, y, p) && Cong(a - b, c, p)
    ensures Cong(b + c, y, p)
  {
    CongAdd(b, b, a - b, c, p);
  }

  // --------------------------------------------------------------- Newton's Horner

  /** Horner's rule in the Newton basis, from index i on. */
  function Tail(xs: seq<int>, cs: seq<int>, i: nat, x: int): int
    requires i <= |cs| <= |xs|
    decreases |cs| - i
  {
    if i == |cs| then 0 else cs[i] + (x - xs[i]) * Tail(xs, cs, i + 1, x)
  }

  /** What evaluate_newton returns. */
  function NewtonValue(xs: seq<int>, cs: seq<int>, x: int, p: int): int
    requires |cs| <= |xs| && p > 0
  {
    Tail(xs, cs, 0, x) % p
  }

  method EvaluateNewton(xs: seq<int>, coefficients: seq<int>, x: int, p: int) returns (value: int)
    requires |coefficients| == |xs| && p > 0
    ensures value == NewtonValue(xs, coefficients, x, p)
  {
    value := 0;
    var i := |coefficients|;
    DivModUnique(0, p, 0, 0);
    while i > 0
      invariant 0 <= i <= |coefficients|
      invariant value == Tail(xs, coefficients, i, x) % p
    {
      i := i - 1;
      var rest := Tail(xs, coefficients, i + 1, x);
      ModCong(rest, p);
      CongScale(x - xs[i], value, rest, p);
      CongAdd((x - xs[i]) * value, (x - xs[i]) * rest, coefficients[i], coefficients[i], p);
      CongMod(value * (x - xs[i]) + coefficients[i], Tail(xs, coefficients, i, x), p);
      value := (value * (x - xs[i]) + coefficients[i]) % p;
    }
  }

  /** The leading differences, one per point. */
  ghost predicate Differences(xs: seq<int>, ys: seq<int>, cs: seq<int>, p: int)
    requires |xs| == |ys| && p > 0
  {
    |cs| <= |xs| && forall i :: 0 <= i < |cs| ==> cs[i] == Divided(xs, ys, i, i, p)
  }

  lemma {:induction false} TailWindow(xs: seq<int>, ys: seq<int>, cs: seq<int>, m: nat, x: int, p: int)
    requires |xs| == |ys| && p > 0 && Differences(xs, ys, cs, p) && 0 < m <= |cs|
    ensures Tail(xs, cs, 0, x) == Window(xs, ys, 0, m - 1, x, p) + Nodes(xs, 0, m, x) * Tail(xs, cs, m, x)
  {
    NodesSplit(xs, 0, m, x);
    WindowSplit(xs, ys, 0, m - 1, x, p);
    if m == 1 {
      NodesSplit(xs, 0, 0, x);
      assert cs[0] == Divided(xs, ys, 0, 0, p) == ys[0];
    } else {
      TailWindow(xs, ys, cs, m - 1, x, p);
      var w, n, c, d, t := Window(xs, ys, 0, m - 2, x, p), Nodes(xs, 0, m - 1, x), cs[m - 1], x - xs[m - 1], Tail(xs, cs, m, x);
      assert Tail(xs, cs, m - 1, x) == c + d * t;
      assert c == Divided(xs, ys, m - 1, m - 1, p);
      TailStep(w, n, c, d, t);
    }
  }

  lemma TailStep(w: int, n: int, c: int, d: int, t: int)
    ensures w + n * (c + d * t) == (w + c * n) + (n * d) * t
  {
    Distribute(n, c, d * t);
    Assoc(n, d, t);
  }

  lemma {:induction false} TailCong(xs: seq<int>, cs: seq<int>, i: nat, x: int, y: int, p: int)
    requires i <= |cs| <= |xs| && p > 0 && Cong(x, y, p)
    ensures Cong(Tail(xs, cs, i, x), Tail(xs, cs, i, y), p)
    decreases |cs| - i
  {
    if i < |cs| {
      TailCong(xs, cs, i + 1, x, y, p);
      CongSub(x, y, xs[i], xs[i], p);
      CongMul(x - xs[i], y - xs[i], Tail(xs, cs, i + 1, x), Tail(xs, cs, i + 1, y), p);
      CongAdd(cs[i], cs[i], (x - xs[i]) * Tail(xs, cs, i + 1, x), (y - xs[i]) * Tail(xs, cs, i + 1, y), p);
    }
  }

  /** The first m Newton coefficients reproduce the first m values. */
  lemma DifferencesInterpolate(xs: seq<int>, ys: seq<int>, cs: seq<int>, i: nat, x: int, p: int)
    requires |xs| == |ys| && Prime(p) && DistinctMod(xs, p) && Differences(xs, ys, cs, p)
    requires i < |cs| && Cong(x, xs[i], p)
    ensures Cong(Tail(xs, cs, 0, x), ys[i], p)
  {
    TailCong(xs, cs, 0, x, xs[i], p);
    TailWindow(xs, ys, cs, |cs|, xs[i], p);
    WindowInterpolates(xs, ys, 0, |cs| - 1, i, p);
  }

  // -------------------------------------------------------------- the list in place

  /** Entry i after the first j passes over the list. */
  function Passed(i: nat, j: nat): nat
  {
    if i < j then i else j
  }

  /** The passes overwrite the list from the back, so pass j still reads pass j - 1. */
  method DividedDifferences(xs: seq<int>, coefficients: array<int>, p: int)
    requires Prime(p) && |xs| == coefficients.Length && DistinctMod(xs, p)
    modifies coefficients
    ensures forall i :: 0 <= i < |xs| ==> coefficients[i] == Divided(xs, old(coefficients[..]), i, i, p)
  {
    ghost var ys := coefficients[..];
    var j := 1;
    while j < |xs|
      invariant 1 <= j && (|xs| > 0 ==> j <= |xs|)
      invariant forall i :: 0 <= i < |xs| ==> coefficients[i] == Divided(xs, ys, i, Passed(i, j - 1), p)
    {
      var i := |xs| - 1;
      while i >= j
        invariant j - 1 <= i <= |xs| - 1
        invariant forall k :: 0 <= k <= i ==> coefficients[k] == Divided(xs, ys, k, Passed(k, j - 1), p)
        invariant forall k :: i < k < |xs| ==> coefficients[k] == Divided(xs, ys, k, Passed(k, j), p)
      {
        DividedValue(xs, ys, i, j, p);
        assert coefficients[i] == Divided(xs, ys, i, j - 1, p) && coefficients[i - 1] == Divided(xs, ys, i - 1, j - 1, p);
        var inverse := Inverse((xs[i] - xs[i - j]) % p, p).value;
        coefficients[i] := (coefficients[i] - coefficients[i - 1]) * inverse % p;
        i := i - 1;
      }
      assert forall k :: 0 <= k < j ==> Passed(k, j - 1) == Passed(k, j);
      j := j + 1;
    }
    ghost var last := j - 1;
    assert forall i :: 0 <= i < |xs| ==> Passed(i, last) == i;
  }

  function Xs(points: seq<(int, int)>): (r: seq<int>)
    ensures |r| == |points|
  {
    seq(|points|, i requires 0 <= i < |points| => points[i].0)
  }

  /** len(set(xs)) != len(xs). */
  predicate HasDuplicate(xs: seq<int>)
  {
    exists i, j :: 0 <= i < j < |xs| && xs[i] == xs[j]
  }

  /**
   The interpolation refuses exactly the points that coincide modulo p; otherwise
   evaluating its Newton form at every given point, reduced or not, gives its value.
   */
  method Interpolate(points: seq<(int, int)>, p: int) returns (result: Result<(seq<int>, seq<int>)>)
    requires Prime(p)
    ensures result.Ok? <==> DistinctMod(Xs(points), p)
    ensures result.Ok? ==> |result.value.0| == |result.value.1| == |points|
    ensures result.Ok? ==> forall i :: 0 <= i < |points| ==>
              NewtonValue(result.value.0, result.value.1, points[i].0, p) == points[i].1 % p
    ensures result.Ok? ==> forall i :: 0 <= i < |points| ==> result.value.0[i] == points[i].0 % p
    ensures result.Ok? ==> Differences(result.value.0,
                             seq(|points|, i requires 0 <= i < |points| => points[i].1 % p), result.value.1, p)
  {
    var xs := seq(|points|, i requires 0 <= i < |points| => points[i].0 % p);
    var ys := seq(|points|, i requires 0 <= i < |points| => points[i].1 % p);
    ReducedPoints(points, xs, p);
    if HasDuplicate(xs) {
      return Err;
    }
    var coefficients := new int[|points|];
    for i := 0 to |points|
      invariant forall k :: 0 <= k < i ==> coefficients[k] == ys[k]
    {
      coefficients[i] := ys[i];
    }
    assert coefficients[..] == ys;
    DividedDifferences(xs, coefficients, p);
    var cs := coefficients[..];
    assert Differences(xs, ys, cs, p);
    forall i | 0 <= i < |points|
      ensures NewtonValue(xs, cs, points[i].0, p) == points[i].1 % p
    {
      ModCong(points[i].0, p);
      DifferencesInterpolate(xs, ys, cs, i, points[i].0, p);
      CongMod(Tail(xs, cs, 0, points[i].0), ys[i], p);
      ModMod(points[i].1, p);
    }
    return Ok((xs, cs));
  }

  lemma ReducedPoints(points: seq<(int, int)>, xs: seq<int>, p: int)
    requires p > 0 && |xs| == |points| && forall i :: 0 <= i < |points| ==> xs[i] == points[i].0 % p
    ensures HasDuplicate(xs) <==> !DistinctMod(Xs(points), p)
    ensures !HasDuplicate(xs) <==> DistinctMod(xs, p)
  {
    forall i, j | 0 <= i < j < |xs|
      ensures Cong(Xs(points)[i], Xs(points)[j], p) <==> xs[i] == xs[j]
      ensures Cong(xs[i], xs[j], p) <==> xs[i] == xs[j]
    {
      CongMod(points[i].0, points[j].0, p);
      CongMod(xs[i], xs[j], p);
      ModMod(points[i].0, p);
      ModMod(points[j].0, p);
    }
  }

  // ------------------------------------------------------------- minimal degree

  /** (X - r)*f. */
  function TimesLinear(f: Poly, r: int): (g: Poly)
    ensures |g| == |f| + 1
  {
    Add([0] + f, Scale(-r, f + [0]))
  }

  lemma EvalTimesLinear(f: Poly, r: int, x: int)
    ensures Eval(TimesLinear(f, r), x) == (x - r) * Eval(f, x)
  {
    EvalAdd([0] + f, Scale(-r, f + [0]), x);
    EvalCons(0, f, x);
    EvalScale(-r, f + [0], x);
    EvalAppend(f, [0], x);
    EvalSingle(0, x);
    assert Pow(x, |f|) * 0 == 0;
    DistributeSub(Eval(f, x), x, r);
  }

  /** The Newton form as a coefficient list: its top coefficient is the last difference. */
  function NewtonPoly(xs: seq<int>, cs: seq<int>, i: nat): (f: Poly)
    requires i <= |cs| <= |xs|
    ensures |f| == |cs| - i
    ensures i < |cs| ==> f[|f| - 1] == cs[|cs| - 1]
    decreases |cs| - i
  {
    if i == |cs| then [] else Add([cs[i]] + Zero(|cs| - i - 1), TimesLinear(NewtonPoly(xs, cs, i + 1), xs[i]))
  }

  lemma {:induction false} EvalNewtonPoly(xs: seq<int>, cs: seq<int>, i: nat, x: int)
    requires i <= |cs| <= |xs|
    ensures Eval(NewtonPoly(xs, cs, i), x) == Tail(xs, cs, i, x)
    decreases |cs| - i
  {
    if i == |cs| {
      EvalNil(x);
    } else {
      var rest := NewtonPoly(xs, cs, i + 1);
      EvalNewtonPoly(xs, cs, i + 1, x);
      EvalTimesLinear(rest, xs[i], x);
      EvalAdd([cs[i]] + Zero(|cs| - i - 1), TimesLinear(rest, xs[i]), x);
      EvalConstant(cs[i], |cs| - i - 1, x);
      assert Tail(xs, cs, i, x) == cs[i] + (x - xs[i]) * Tail(xs, cs, i + 1, x);
    }
  }

  lemma EvalConstant(c: int, n: nat, x: int)
    ensures Eval([c] + Zero(n), x) == c
  {
    EvalCons(c, Zero(n), x);
    EvalZero(n, x);
  }

  ghost predicate Vanishes(f: Poly, xs: seq<int>, p: int)
    requires p > 0
  {
    forall i :: 0 <= i < |xs| ==> Cong(Eval(f, xs[i]), 0, p)
  }

  ghost predicate AllZero(f: Poly, p: int)
    requires p > 0
  {
    forall i :: 0 <= i < |f| ==> Cong(f[i], 0, p)
  }

  /** A polynomial with as many roots as coefficients is zero modulo a prime. */
  lemma {:induction false} RootBound(f: Poly, xs: seq<int>, p: int)
    requires Prime(p) && |f| == |xs| && DistinctMod(xs, p) && Vanishes(f, xs, p)
    ensures AllZero(f, p)
    decreases |f|
  {
    if |f| > 0 {
      var r, rest := xs[0], xs[1..];
      var q := Quotient(f, r);
      forall i | 0 <= i < |rest|
        ensures Cong(Eval(q, rest[i]), 0, p)
      {
        var x := xs[i + 1];
        SyntheticDivision(f, r, x);
        CongSub(Eval(f, x), 0, Eval(f, r), 0, p);
        assert !Cong(r, x, p);
        ApartUnit(x, r, p);
        CoprimeCancel(x - r, Eval(q, x), p);
      }
      assert DistinctMod(rest, p) by {
        assert forall i :: 0 <= i < |rest| ==> rest[i] == xs[i + 1];
      }
      RootBound(q, rest, p);
      QuotientZero(f, r, p);
    }
  }

  /** If the quotient and the value at the root vanish, so does the dividend. */
  lemma QuotientZero(f: Poly, r: int, p: int)
    requires p > 0 && |f| > 0 && AllZero(Quotient(f, r), p) && Cong(Eval(f, r), 0, p)
    ensures AllZero(f, p)
  {
    forall i | 0 <= i < |f|
      ensures Cong(f[i], 0, p)
    {
      assert f[i..][1..] == f[i + 1..];
      assert f[0..] == f;
      EvalSplit(f[i..], r);
      TailValue(f, r, p, i);
      if i < |f| - 1 {
        TailValue(f, r, p, i + 1);
        CongScale(r, Eval(f[i + 1..], r), 0, p);
      } else {
        assert f[i + 1..] == [];
        EvalNil(r);
      }
      CongSub(Eval(f[i..], r), 0, r * Eval(f[i + 1..], r), 0, p);
    }
  }

  lemma TailValue(f: Poly, r: int, p: int, i: nat)
    requires p > 0 && i < |f| && AllZero(Quotient(f, r), p) && Cong(Eval(f, r), 0, p)
    ensures Cong(Eval(f[i..], r), 0, p)
  {
    if i > 0 {
      assert Quotient(f, r)[i - 1] == Eval(f[i..], r);
    } else {
      assert f[0..] == f;
    }
  }

  /**
   A nonzero Newton coefficient certifies the degree: no polynomial with at most d
   coefficients takes the given values modulo p when coefficient d is nonzero.
   */
  lemma MinimalDegree(xs: seq<int>, ys: seq<int>, cs: seq<int>, f: Poly, d: nat, p: int)
    requires |xs| == |ys| == |cs| && Prime(p) && DistinctMod(xs, p) && Differences(xs, ys, cs, p)
    requires Takes(f, xs, ys, p) && d < |cs| && !Cong(cs[d], 0, p)
    ensures |f| > d
  {
    if |f| <= d {
      LowDegree(xs, ys, cs, f, d, p);
    }
  }

  ghost predicate Takes(f: Poly, xs: seq<int>, ys: seq<int>, p: int)
    requires |xs| == |ys| && p > 0
  {
    forall i :: 0 <= i < |xs| ==> Cong(Eval(f, xs[i]), ys[i], p)
  }

  lemma LowDegree(xs: seq<int>, ys: seq<int>, cs: seq<int>, f: Poly, d: nat, p: int)
    requires |xs| == |ys| == |cs| && Prime(p) && DistinctMod(xs, p) && Differences(xs, ys, cs, p)
    requires Takes(f, xs, ys, p) && d < |cs| && |f| <= d
    ensures Cong(cs[d], 0, p)
  {
    var head, nodes := cs[..d + 1], xs[..d + 1];
    var g := NewtonPoly(xs, head, 0);
    var padded := f + Zero(d + 1 - |f|);
    var e := Sub(g, padded);
    forall i | 0 <= i < |nodes|
      ensures Cong(Eval(e, nodes[i]), 0, p)
    {
      DifferencesInterpolate(xs, ys, head, i, xs[i], p);
      EvalNewtonPoly(xs, head, 0, xs[i]);
      DifferenceValue(g, f, padded, xs[i], ys[i], p);
    }
    assert DistinctMod(nodes, p);
    RootBound(e, nodes, p);
    assert e[d] == cs[d];
  }

  lemma DifferenceValue(g: Poly, f: Poly, padded: Poly, x: int, y: int, p: int)
    requires p > 0 && |f| <= |g| && padded == f + Zero(|g| - |f|)
    requires Cong(Eval(g, x), y, p) && Cong(Eval(f, x), y, p)
    ensures Cong(Eval(Sub(g, padded), x), 0, p)
  {
    EvalAdd(g, Scale(-1, padded), x);
    EvalScale(-1, padded, x);
    EvalAppend(f, Zero(|g| - |f|), x);
    EvalZero(|g| - |f|, x);
    assert Pow(x, |f|) * 0 == 0;
    CongSub(Eval(g, x), y, Eval(f, x), y, p);
  }
}
