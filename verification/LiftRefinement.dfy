/**
 The public refresh refinement: a bounded value recovered from two residues, the
 monomial interpolation of a table on 0..k-1, and the box-ball flow whose carrier
 and height are transported through residues only.
 */
module LiftRefinement {
  import opened Arith
  import opened Units
  import opened Vectors
  import opened Polynomials
  import opened DigitPolynomial
  import opened Wrappers

  // ------------------------------------------------------------- project_lift

  /** The sheet derived from the two views, or None outside the declared domain. */
  function Sheet(main: int, anchorView: int, shell: int, anchor: int): Option<int>
    requires shell >= 2 && anchor >= 2
  {
    match Inverse(shell, anchor)
    case None => None
    case Some(w) => Some((anchorView - main) * w % anchor)
  }

  /** (sheet, main) > (q, r), the lexicographic comparison with divmod(upper, shell). */
  predicate Exceeds(sheet: int, main: int, upper: int, shell: int)
    requires shell > 0
  {
    sheet > upper / shell || (sheet == upper / shell && main > upper % shell)
  }

  function ProjectLift(main: int, anchorView: int, shell: int, anchor: int, upper: int, target: int): Result<int>
  {
    if shell < 2 || anchor < 2 || ExtendedGcd(shell, anchor).0 != 1 then Err
    else if !(0 <= upper < shell * anchor) then Err
    else if !(0 <= main < shell) || !(0 <= anchorView < anchor) || target < 1 then Err
    else
      match Sheet(main, anchorView, shell, anchor)
      case None => Err
      case Some(sheet) =>
        if Exceeds(sheet, main, upper, shell) then Err
        else Ok((main % target + (shell % target) * (sheet % target)) % target)
  }

  predicate LiftDomain(main: int, anchorView: int, shell: int, anchor: int, upper: int, target: int)
  {
    && shell >= 2 && anchor >= 2 && ExtendedGcd(shell, anchor).0 == 1 && 0 <= upper < shell * anchor
    && 0 <= main < shell && 0 <= anchorView < anchor && target >= 1
  }

  /** y is an admitted integer with the two views. */
  predicate Lifts(y: int, main: int, anchorView: int, shell: int, anchor: int, upper: int)
    requires shell > 0 && anchor > 0
  {
    0 <= y <= upper && y % shell == main && y % anchor == anchorView
  }

  lemma GcdCoprime(a: int, m: int)
    requires a >= 0 && m > 0
    ensures ExtendedGcd(a, m).0 == 1 <==> Coprime(a, m)
  {
    ModInverseCorrect(a, m);
  }

  /** The derived integer has both views and lies below the paired capacity. */
  lemma SheetCorrect(main: int, anchorView: int, shell: int, anchor: int)
    requires shell >= 2 && anchor >= 2 && Coprime(shell, anchor) && 0 <= main < shell && 0 <= anchorView < anchor
    ensures var s := Sheet(main, anchorView, shell, anchor);
            && s.Some? && 0 <= s.value < anchor
            && (main + shell * s.value) % shell == main && (main + shell * s.value) % anchor == anchorView
            && 0 <= main + shell * s.value < shell * anchor
  {
    InverseCorrect(shell, anchor);
    var w := Inverse(shell, anchor).value;
    var d := anchorView - main;
    var s := d * w % anchor;
    DivModUnique(main + shell * s, shell, s, main);
    ModCong(d * w, anchor);
    CongScale(shell, s, d * w, anchor);
    CongScale(d, shell * w, 1, anchor);
    assert shell * (d * w) == d * (shell * w);
    CongAdd(main, main, shell * s, d, anchor);
    CongMod(main + shell * s, anchorView, anchor);
    DivModUnique(anchorView, anchor, 0, anchorView);
    MulMono(0, s, shell);
    MulMono(s, anchor - 1, shell);
    DistributeSub(shell, anchor, 1);
  }

  /** The lexicographic test compares the derived integer with the bound. */
  lemma ExceedsExact(sheet: int, main: int, upper: int, shell: int)
    requires shell > 0 && 0 <= main < shell
    ensures Exceeds(sheet, main, upper, shell) <==> main + shell * sheet > upper
  {
    var q := upper / shell;
    if sheet > q {
      MulMono(q + 1, sheet, shell);
      Distribute(shell, q, 1);
    } else if sheet < q {
      MulMono(sheet + 1, q, shell);
      Distribute(shell, sheet, 1);
    }
  }

  /** Two integers below the capacity with equal views are equal. */
  lemma LiftUnique(y: int, z: int, shell: int, anchor: int)
    requires shell > 0 && anchor > 0 && shell * anchor > 0 && Coprime(shell, anchor)
    requires 0 <= y < shell * anchor && 0 <= z < shell * anchor
    requires y % shell == z % shell && y % anchor == z % anchor
    ensures y == z
  {
    CongMod(y, z, shell);
    CongMod(y, z, anchor);
    CoprimeLift(y, z, shell, anchor);
    CongSmallEqual(y, z, shell * anchor);
  }

  lemma TargetResidue(main: int, shell: int, sheet: int, target: int)
    requires target >= 1
    ensures (main % target + (shell % target) * (sheet % target)) % target == (main + shell * sheet) % target
  {
    ModCong(main, target);
    ModCong(shell, target);
    ModCong(sheet, target);
    CongMul(shell % target, shell, sheet % target, sheet, target);
    CongAdd(main % target, main, (shell % target) * (sheet % target), shell * sheet, target);
    CongMod(main % target + (shell % target) * (sheet % target), main + shell * sheet, target);
  }

  /**
   The projection answers exactly when its arguments are in the domain and some
   admitted integer has the two views; the answer is the residue of that integer.
   */
  lemma ProjectLiftExact(main: int, anchorView: int, shell: int, anchor: int, upper: int, target: int)
    ensures ProjectLift(main, anchorView, shell, anchor, upper, target).Ok?
       <==> LiftDomain(main, anchorView, shell, anchor, upper, target)
            && exists y :: Lifts(y, main, anchorView, shell, anchor, upper)
    ensures LiftDomain(main, anchorView, shell, anchor, upper, target) ==>
              forall y :: Lifts(y, main, anchorView, shell, anchor, upper) ==>
                ProjectLift(main, anchorView, shell, anchor, upper, target) == Ok(y % target)
  {
    if LiftDomain(main, anchorView, shell, anchor, upper, target) {
      GcdCoprime(shell, anchor);
      SheetCorrect(main, anchorView, shell, anchor);
      var s := Sheet(main, anchorView, shell, anchor).value;
      var derived := main + shell * s;
      ExceedsExact(s, main, upper, shell);
      TargetResidue(main, shell, s, target);
      forall y | Lifts(y, main, anchorView, shell, anchor, upper)
        ensures y == derived
      {
        LiftUnique(y, derived, shell, anchor);
      }
      if derived <= upper {
        assert Lifts(derived, main, anchorView, shell, anchor, upper);
      }
    }
  }

  // -------------------------------------------------------------- box-ball flow

  datatype Flow = Flow(before: seq<int>, after: seq<int>, shell: int, anchor: int)

  predicate Binary(cells: seq<int>)
  {
    forall i :: 0 <= i < |cells| ==> cells[i] == 0 || cells[i] == 1
  }

  /** The construction check: binary snapshots, conserved mass, and an admitted interval. */
  function MakeFlow(before: seq<int>, after: seq<int>, shell: int, anchor: int): Result<Flow>
  {
    if !Binary(before) || !Binary(after) then Err
    else if |before| != |after| || Sum(before) != Sum(after) then Err
    else
      match ProjectLift(0, 0, shell, anchor, 2 * Sum(before), 1)
      case Err => Err
      case Ok(_) => Ok(Flow(before, after, shell, anchor))
  }

  predicate Made(f: Flow)
  {
    MakeFlow(f.before, f.after, f.shell, f.anchor) == Ok(f)
  }

  /** The signed net flux through a boundary: arrivals minus departures on its left. */
  function Flux(f: Flow, index: nat): int
    requires index <= |f.before| == |f.after|
  {
    Sum(f.before[..index]) - Sum(f.after[..index])
  }

  function CarrierMod(f: Flow, index: int, target: int): Result<int>
    requires Made(f)
  {
    if !(0 <= index <= |f.before|) then Err
    else
      var incoming, outgoing, bound := Sum(f.before[..index]), Sum(f.after[..index]), Sum(f.before);
      var main := (incoming % f.shell - outgoing % f.shell + bound) % f.shell;
      var view := (incoming % f.anchor - outgoing % f.anchor + bound) % f.anchor;
      match ProjectLift(main, view, f.shell, f.anchor, 2 * bound, target)
      case Err => Err
      case Ok(v) => if target > 0 then Ok((v - bound) % target) else Err
  }

  function LiftedHeightMod(f: Flow, index: int, target: int): Result<int>
    requires Made(f)
  {
    match CarrierMod(f, index, target)
    case Err => Err
    case Ok(carrier) =>
      if 0 <= index <= |f.before| && target > 0 then
        Ok(((index - 2 * Sum(f.before[..index])) % target + 2 * carrier) % target)
      else Err
  }

  lemma {:induction false} PrefixSum(cells: seq<int>, i: nat)
    requires Binary(cells) && i <= |cells|
    ensures 0 <= Sum(cells[..i]) <= Sum(cells)
    decreases |cells|
  {
    if i == |cells| {
      assert cells[..i] == cells;
      if |cells| > 0 {
        PrefixSum(cells[..|cells| - 1], |cells| - 1);
      }
    } else {
      PrefixSum(cells[..|cells| - 1], i);
      assert cells[..|cells| - 1][..i] == cells[..i];
    }
  }

  lemma ShiftedResidue(a: int, b: int, c: int, m: int)
    requires m > 0
    ensures (a % m - b % m + c) % m == (a - b + c) % m
  {
    ModCong(a, m);
    ModCong(b, m);
    CongSub(a % m, a, b % m, b, m);
    CongAdd(a % m - b % m, a - b, c, c, m);
    CongMod(a % m - b % m + c, a - b + c, m);
  }

  /** The carrier read from two residues is the net flux, for every boundary and target. */
  lemma CarrierIsFlux(f: Flow, index: int, target: int)
    requires Made(f)
    ensures CarrierMod(f, index, target).Ok? <==> 0 <= index <= |f.before| && target >= 1
    ensures CarrierMod(f, index, target).Ok? ==> CarrierMod(f, index, target).value == Flux(f, index) % target
  {
    if 0 <= index <= |f.before| {
      var incoming, outgoing, bound := Sum(f.before[..index]), Sum(f.after[..index]), Sum(f.before);
      PrefixSum(f.before, index);
      PrefixSum(f.after, index);
      ProjectLiftExact(0, 0, f.shell, f.anchor, 2 * bound, 1);
      var y := incoming - outgoing + bound;
      ShiftedResidue(incoming, outgoing, bound, f.shell);
      ShiftedResidue(incoming, outgoing, bound, f.anchor);
      assert Lifts(y, y % f.shell, y % f.anchor, f.shell, f.anchor, 2 * bound);
      ProjectLiftExact(y % f.shell, y % f.anchor, f.shell, f.anchor, 2 * bound, target);
      if target >= 1 {
        ShiftBack(y, bound, target);
      }
    }
  }

  lemma ShiftBack(y: int, bound: int, target: int)
    requires target >= 1
    ensures (y % target - bound) % target == (y - bound) % target
  {
    ModCong(y, target);
    CongSub(y % target, y, bound, bound, target);
    CongMod(y % target - bound, y - bound, target);
  }

  /** The lifted height is the height of the successor snapshot. */
  lemma HeightIsTransported(f: Flow, index: int, target: int)
    requires Made(f)
    ensures LiftedHeightMod(f, index, target).Ok? <==> 0 <= index <= |f.before| && target >= 1
    ensures LiftedHeightMod(f, index, target).Ok? ==>
              LiftedHeightMod(f, index, target).value == (index - 2 * Sum(f.after[..index])) % target
  {
    CarrierIsFlux(f, index, target);
    if 0 <= index <= |f.before| && target >= 1 {
      var h, c := index - 2 * Sum(f.before[..index]), Flux(f, index);
      ModCong(h, target);
      ModCong(c, target);
      CongScale(2, c % target, c, target);
      CongAdd(h % target, h, 2 * (c % target), 2 * c, target);
      CongMod(h % target + 2 * (c % target), h + 2 * c, target);
    }
  }

  // -------------------------------------------------------- monomial interpolation

  /** Two entries of the product with X - root, reduced. */
  method AddLinear(before: Poly, c: int, i: nat, root: int, prime: int) returns (next: Poly)
    requires prime >= 2 && i + 1 < |before|
    ensures |next| == |before| && Cong(next[i], before[i] - root * c, prime) && Cong(next[i + 1], before[i + 1] + c, prime)
    ensures forall d :: 0 <= d < |next| && d != i && d != i + 1 ==> next[d] == before[d]
    ensures next[i + 1] == (before[i + 1] + c) % prime
  {
    var low, high := before[i] - root * c, before[i + 1] + c;
    ModCong(low, prime);
    ModCong(high, prime);
    next := before[i := low % prime][i + 1 := high % prime];
  }

  /** The first i coefficients multiplied by X - root; the top entry is 1 exactly at the end. */
  ghost predicate LinearState(result: Poly, polynomial: Poly, i: nat, root: int, prime: int)
    requires prime > 0 && |polynomial| > 0 && i <= |polynomial|
  {
    && CongPoly(result, PartialProduct(polynomial, [-root, 1], i), prime)
    && |result| == |polynomial| + 1 && result[|polynomial|] == if i < |polynomial| then 0 else 1
  }

  /** The two updates per coefficient multiply by X - root. */
  method MultiplyLinear(polynomial: Poly, root: int, prime: int) returns (result: Poly)
    requires prime >= 2 && |polynomial| > 0 && polynomial[|polynomial| - 1] == 1
    ensures CongPoly(result, Product(polynomial, [-root, 1]), prime)
    ensures result[|result| - 1] == 1
  {
    result := Zero(|polynomial| + 1);
    for i := 0 to |polynomial|
      invariant LinearState(result, polynomial, i, root, prime)
    {
      result := LinearEntry(result, polynomial, i, root, prime);
    }
  }

  method LinearEntry(before: Poly, polynomial: Poly, i: nat, root: int, prime: int) returns (next: Poly)
    requires prime >= 2 && i < |polynomial| && polynomial[|polynomial| - 1] == 1 && LinearState(before, polynomial, i, root, prime)
    ensures LinearState(next, polynomial, i + 1, root, prime)
  {
    next := AddLinear(before, polynomial[i], i, root, prime);
    LinearRow(before, next, PartialProduct(polynomial, [-root, 1], i), polynomial, i, root, prime);
    if i + 1 == |polynomial| {
      assert next[i + 1] == 1 % prime;
    }
  }

  lemma LinearRow(before: Poly, next: Poly, partial: Poly, a: Poly, i: nat, root: int, m: int)
    requires m > 0 && i < |a| && |before| == |next| == |a| + 1 && CongPoly(before, partial, m)
    requires Cong(next[i], before[i] - root * a[i], m) && Cong(next[i + 1], before[i + 1] + a[i], m)
    requires forall d :: 0 <= d < |next| && d != i && d != i + 1 ==> next[d] == before[d]
    ensures CongPoly(next, Add(partial, Row(a, i, [-root, 1])), m)
  {
    var row := Row(a, i, [-root, 1]);
    assert row[i] == a[i] * -root && row[i + 1] == a[i] * 1;
    assert a[i] * -root == -(root * a[i]);
    CongAdd(before[i], partial[i], row[i], row[i], m);
    CongAdd(before[i + 1], partial[i + 1], row[i + 1], row[i + 1], m);
    forall d | 0 <= d < |next|
      ensures Cong(next[d], Add(partial, row)[d], m)
    {
      if d != i && d != i + 1 {
        assert row[d] == 0;
      }
    }
  }

  /** Synthetic division of a monic polynomial, from the unit top coefficient down. */
  method DivideMonic(g: Poly, root: int, p: int) returns (quotient: Poly)
    requires p > 0 && |g| >= 2 && g[|g| - 1] == 1
    ensures CongPoly(quotient, Quotient(g, root), p)
  {
    var n := |g| - 1;
    quotient := Zero(n);
    assert g[n..] == [g[n]];
    EvalSingle(g[n], root);
    quotient := quotient[n - 1 := 1];
    var i := n - 1;
    while i > 0
      invariant 0 <= i <= n - 1 && |quotient| == n
      invariant forall k :: i <= k < n ==> Cong(quotient[k], Eval(g[k + 1..], root), p)
    {
      i := i - 1;
      HornerStep(g, i + 1, root, quotient[i + 1], p);
      ModCong(g[i + 1] + root * quotient[i + 1], p);
      quotient := quotient[i := (g[i + 1] + root * quotient[i + 1]) % p];
    }
  }

  /** With more than p points the slope at the first root is zero modulo p. */
  lemma {:induction false} CrowdedSlope(k: nat, p: int)
    requires p >= 1 && k > p
    ensures Cong(Slope(RootProduct(0, k), 0), 0, p)
  {
    RootStep(0, k - 1, 0);
    RootVanishes(0, k - 1, 0);
    if k > p + 1 {
      CrowdedSlope(k - 1, p);
    }
    CrowdedStep(Slope(RootProduct(0, k), 0), Slope(RootProduct(0, k - 1), 0), k - 1, p);
  }

  lemma CrowdedStep(slope: int, before: int, root: int, p: int)
    requires p > 0 && slope == before * (0 - root) && (root == p || Cong(before, 0, p))
    ensures Cong(slope, 0, p)
  {
    if root == p {
      CongFrom(slope, 0, p, -before);
    } else {
      CongScale(0 - root, before, 0, p);
    }
  }

  lemma ZeroNotUnit(e: int, p: int)
    requires p >= 2 && Cong(e, 0, p)
    ensures !Coprime(e, p)
  {
    if Coprime(e, p) {
      CoprimeMod(e, 0, p);
      var x, y :| Bezout(0, p, x, y);
      UnitFactor(p, y);
    }
  }

  /** The derivative at a root is invertible at every root, or already not at the first. */
  lemma DerivativeInverse(g: Poly, quotient: Poly, k: nat, i: nat, p: int)
    requires Prime(p) && i < k && CongPoly(g, RootProduct(0, k), p) && CongPoly(quotient, Quotient(g, i), p)
    ensures var v := Inverse(Evaluate(quotient, i, p), p);
            && (k <= p ==> v.Some? && Cong(Eval(quotient, i) * v.value, 1, p))
            && (k > p && i == 0 ==> v.None?)
  {
    if k <= p {
      InverseExists(g, quotient, 0, k, i, p);
    } else if i == 0 {
      EvalCong(g, RootProduct(0, k), 0, p);
      EvalCong(quotient, Quotient(g, 0), 0, p);
      SyntheticDivision(g, 0, 0);
      CrowdedSlope(k, p);
      var e := Eval(quotient, 0);
      EvaluateIsEval(quotient, 0, p);
      ModCong(e, p);
      ZeroNotUnit(e % p, p);
      InverseCorrect(e % p, p);
    }
  }

  /** The quotient by one root vanishes at the others. */
  lemma BasisVanishes(g: Poly, quotient: Poly, k: nat, i: nat, j: nat, p: int)
    requires Prime(p) && i < k <= p && j < k && i != j
    requires CongPoly(g, RootProduct(0, k), p) && CongPoly(quotient, Quotient(g, i), p)
    ensures Cong(Eval(quotient, j), 0, p)
  {
    EvalCong(g, RootProduct(0, k), i, p);
    EvalCong(g, RootProduct(0, k), j, p);
    EvalCong(quotient, Quotient(g, i), j, p);
    SyntheticDivision(g, i, j);
    RootVanishes(0, k, i);
    RootVanishes(0, k, j);
    DifferenceUnit(j, i, p);
    CongSub(Eval(g, j), 0, Eval(g, i), 0, p);
    CoprimeCancel(j - i, Eval(Quotient(g, i), j), p);
  }

  /** The partial sum takes the first `done` values and vanishes at the later points. */
  ghost predicate TakesValues(h: Poly, values: seq<int>, done: nat, p: int)
    requires p > 0
  {
    forall j: nat :: j < |values| ==> Cong(Eval(h, j), if j < done then values[j] else 0, p)
  }

  lemma TakesStep(h: Poly, next: Poly, g: Poly, quotient: Poly, values: seq<int>, i: nat, w: int, scale: int, p: int)
    requires Prime(p) && i < |values| <= p && |h| == |quotient|
    requires CongPoly(g, RootProduct(0, |values|), p) && CongPoly(quotient, Quotient(g, i), p)
    requires Cong(Eval(quotient, i) * w, 1, p) && Cong(scale, values[i] * w, p)
    requires CongPoly(next, Add(h, Scale(scale, quotient)), p) && TakesValues(h, values, i, p)
    ensures TakesValues(next, values, i + 1, p)
  {
    forall j: nat | j < |values|
      ensures Cong(Eval(next, j), if j < i + 1 then values[j] else 0, p)
    {
      if j == i {
        PlacedValue(Eval(quotient, i), w, values[i], scale, p);
      } else {
        BasisVanishes(g, quotient, |values|, i, j, p);
        CongScale(scale, Eval(quotient, j), 0, p);
      }
      TakesAt(h, next, quotient, j, scale, if j < i then values[j] else 0, if j == i then values[i] else 0, p);
    }
  }

  lemma TakesAt(h: Poly, next: Poly, quotient: Poly, j: nat, scale: int, x: int, y: int, p: int)
    requires p > 0 && |h| == |quotient| && CongPoly(next, Add(h, Scale(scale, quotient)), p)
    requires Cong(Eval(h, j), x, p) && Cong(Eval(quotient, j) * scale, y, p)
    ensures Cong(Eval(next, j), x + y, p)
  {
    WeightedValue(h, next, quotient, scale, j, p);
    CongAdd(Eval(h, j), x, Eval(quotient, j) * scale, y, p);
  }

  /** e*w = 1 and scale = v*w give e*scale = v. */
  lemma PlacedValue(e: int, w: int, v: int, scale: int, p: int)
    requires p > 0 && Cong(e * w, 1, p) && Cong(scale, v * w, p)
    ensures Cong(e * scale, v, p)
  {
    CongScale(e, scale, v * w, p);
    CongScale(v, e * w, 1, p);
    Exchange(e, v, w);
  }

  /** Every coefficient is a canonical residue. */
  predicate Reduced(h: Poly, p: int)
  {
    forall i :: 0 <= i < |h| ==> 0 <= h[i] < p
  }

  method AddScaled(h: Poly, quotient: Poly, scale: int, p: int) returns (next: Poly)
    requires p > 0 && |h| == |quotient|
    ensures CongPoly(next, Add(h, Scale(scale, quotient)), p) && Reduced(next, p)
  {
    next := h;
    for i := 0 to |quotient|
      invariant |next| == |h|
      invariant forall d :: 0 <= d < i ==> 0 <= next[d] < p
      invariant forall d :: 0 <= d < i ==> Cong(next[d], h[d] + scale * quotient[d], p)
      invariant forall d :: i <= d < |h| ==> next[d] == h[d]
    {
      ModCong(next[i] + scale * quotient[i], p);
      next := next[i := (next[i] + scale * quotient[i]) % p];
    }
  }

  lemma TakesNothing(values: seq<int>, p: int)
    requires p > 0
    ensures TakesValues(Zero(|values|), values, 0, p)
  {
    forall j: nat | j < |values|
      ensures Cong(Eval(Zero(|values|), j), 0, p)
    {
      EvalZero(|values|, j);
    }
  }

  /**
   The table on 0..k-1 is refused exactly when it has more entries than the prime;
   otherwise the returned coefficients take every value, and no trailing zero is kept.
   */
  method InterpolationValues(values: seq<int>, prime: int) returns (result: Result<Poly>)
    requires Prime(prime)
    ensures result.Ok? <==> |values| <= prime
    ensures result.Ok? ==> |result.value| <= |values|
    ensures result.Ok? ==> Reduced(result.value, prime)
    ensures result.Ok? ==> |result.value| > 1 ==> result.value[|result.value| - 1] != 0
    ensures result.Ok? ==> forall i: nat :: i < |values| ==> Evaluate(result.value, i, prime) == values[i] % prime
  {
    var k := |values|;
    var polynomial := [1];
    for root := 0 to k
      invariant CongPoly(polynomial, RootProduct(0, root), prime) && polynomial[|polynomial| - 1] == 1
    {
      ghost var before := polynomial;
      polynomial := MultiplyLinear(polynomial, root, prime);
      ProductCong(before, RootProduct(0, root), [-root, 1], prime);
    }
    var h := Zero(k);
    TakesNothing(values, prime);
    for root := 0 to k
      invariant |h| == k && TakesValues(h, values, root, prime) && Reduced(h, prime)
      invariant root > 0 ==> k <= prime
    {
      var quotient := DivideMonic(polynomial, root, prime);
      var derivative := EvaluateLoop(quotient, root, prime);
      DerivativeInverse(polynomial, quotient, k, root, prime);
      match Inverse(derivative, prime)
      case None =>
        return Err;
      case Some(inverse) =>
        var scale := values[root] * inverse % prime;
        ModCong(values[root] * inverse, prime);
        ghost var before := h;
        h := AddScaled(h, quotient, scale, prime);
        TakesStep(before, h, polynomial, quotient, values, root, inverse, scale, prime);
    }
    while |h| > 1 && h[|h| - 1] == 0
      invariant |h| <= k && TakesValues(h, values, k, prime) && Reduced(h, prime)
    {
      forall j: nat | j < k
        ensures Eval(h[..|h| - 1], j) == Eval(h, j)
      {
        DropZero(h, j);
      }
      ghost var before := h;
      h := h[..|h| - 1];
      TakesSame(before, h, values, k, prime);
    }
    forall i: nat | i < k
      ensures Evaluate(h, i, prime) == values[i] % prime
    {
      EvaluateIsEval(h, i, prime);
      CongMod(Eval(h, i), values[i], prime);
    }
    return Ok(h);
  }

  lemma TakesSame(h: Poly, next: Poly, values: seq<int>, done: nat, p: int)
    requires p > 0 && TakesValues(h, values, done, p)
    requires forall j: nat :: j < |values| ==> Eval(next, j) == Eval(h, j)
    ensures TakesValues(next, values, done, p)
  {
  }
}
