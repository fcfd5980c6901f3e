/**
 The finite-census audit. Observed rows of an operation are checked for completeness
 of the input product, injectivity, schedule agreement and joint uniformity; the
 uniformity test looks only at observed points, and is proved to decide the whole
 output product.
 */
module Census {
  import opened Arith
  import opened Wrappers

  type State = seq<int>

  datatype Row = Row(input: State, output: State, restored: Option<State>, expected: Option<State>, orderOutputs: seq<State>)

  datatype Trace = Trace(inputModuli: seq<int>, outputModuli: seq<int>, exhaustiveProduct: bool, rows: seq<Row>)

  datatype Verdict = Pass | Fail | Unverified

  datatype Report = Report(exhaustive: bool, g1: Verdict, g2: Verdict, g3: Verdict, g4: Verdict)

  /** A nonempty list of integers from the minimum on. */
  predicate Integers(values: seq<int>, minimum: int)
  {
    |values| > 0 && forall i :: 0 <= i < |values| ==> values[i] >= minimum
  }

  /** The right shape and canonical residues. */
  predicate Canonical(state: State, moduli: seq<int>)
  {
    |state| == |moduli| && forall i :: 0 <= i < |moduli| ==> 0 <= state[i] < moduli[i]
  }

  // -------------------------------------------------------------- counting points

  /** Counter(s)[x] */
  function Count<T(==)>(s: seq<T>, x: T): nat
  {
    if |s| == 0 then 0 else Count(s[..|s| - 1], x) + (if s[|s| - 1] == x then 1 else 0)
  }

  /** The number of rows that fall into a set. */
  ghost function RowsIn<T>(s: seq<T>, points: set<T>): nat
  {
    if |s| == 0 then 0 else RowsIn(s[..|s| - 1], points) + (if s[|s| - 1] in points then 1 else 0)
  }

  lemma {:induction false} RowsInOne<T>(s: seq<T>, x: T)
    ensures RowsIn(s, {x}) == Count(s, x)
  {
    if |s| > 0 {
      RowsInOne(s[..|s| - 1], x);
    }
  }

  lemma {:induction false} RowsInSplit<T>(s: seq<T>, a: set<T>, b: set<T>)
    requires a !! b
    ensures RowsIn(s, a + b) == RowsIn(s, a) + RowsIn(s, b)
  {
    if |s| > 0 {
      RowsInSplit(s[..|s| - 1], a, b);
    }
  }

  lemma {:induction false} RowsInAll<T>(s: seq<T>, points: set<T>)
    requires forall x :: x in s ==> x in points
    ensures RowsIn(s, points) == |s|
  {
    if |s| > 0 {
      RowsInAll(s[..|s| - 1], points);
    }
  }

  lemma {:induction false} CountPositive<T>(s: seq<T>, x: T)
    ensures Count(s, x) > 0 <==> x in s
  {
    if |s| > 0 {
      CountPositive(s[..|s| - 1], x);
      assert s == s[..|s| - 1] + [s[|s| - 1]];
    }
  }

  /** If every point of a set occurs n/m times, the set holds |set|*n/m rows. */
  lemma {:induction false} UniformRows<T>(s: seq<T>, points: set<T>, m: int, n: int)
    requires forall x :: x in points ==> Count(s, x) * m == n
    ensures RowsIn(s, points) * m == |points| * n
    decreases |points|
  {
    if points == {} {
      RowsInNone(s);
    } else {
      var x :| x in points;
      var rest := points - {x};
      UniformRows(s, rest, m, n);
      RowsInSplit(s, rest, {x});
      RowsInOne(s, x);
      assert points == rest + {x};
      Distribute(m, RowsIn(s, rest), Count(s, x));
      Distribute(n, |rest|, 1);
    }
  }

  lemma {:induction false} RowsInNone<T>(s: seq<T>)
    ensures RowsIn(s, {}) == 0
  {
    if |s| > 0 {
      RowsInNone(s[..|s| - 1]);
    }
  }

  lemma {:induction false} ImageSize<A, B>(domain: set<A>, image: set<B>, f: A -> B)
    requires forall x :: x in domain ==> f(x) in image
    requires forall y :: y in image ==> exists x :: x in domain && f(x) == y
    requires forall x, z :: x in domain && z in domain && f(x) == f(z) ==> x == z
    ensures |domain| == |image|
    decreases |domain|
  {
    if domain == {} {
      assert image == {};
    } else {
      var x :| x in domain;
      var y := f(x);
      forall w | w in image - {y}
        ensures exists z :: z in domain - {x} && f(z) == w
      {
        var z :| z in domain && f(z) == w;
        assert z in domain - {x};
      }
      ImageSize(domain - {x}, image - {y}, f);
      assert domain == (domain - {x}) + {x};
      assert image == (image - {y}) + {y};
    }
  }

  lemma SubsetEqual<T>(a: set<T>, b: set<T>)
    requires a <= b && |a| == |b|
    ensures a == b
  {
    assert b == a + (b - a);
    assert |b| == |a| + |b - a|;
  }

  // -------------------------------------------------------------- the product space

  function Snoc(p: State, x: int): State
  {
    p + [x]
  }

  ghost function Extend(points: set<State>, m: int): set<State>
  {
    set p, x: int | p in points && 0 <= x < m :: Snoc(p, x)
  }

  /** All canonical states. */
  ghost function Space(ms: seq<int>): set<State>
  {
    if |ms| == 0 then {[]} else Extend(Space(ms[..|ms| - 1]), ms[|ms| - 1])
  }

  lemma {:induction false} SpaceExact(ms: seq<int>, p: State)
    ensures p in Space(ms) <==> Canonical(p, ms)
  {
    if |ms| > 0 {
      var last := |ms| - 1;
      if |p| == |ms| {
        SpaceExact(ms[..last], p[..last]);
        assert p == Snoc(p[..last], p[last]);
        if p in Space(ms) {
          var q, x :| q in Space(ms[..last]) && 0 <= x < ms[last] && p == Snoc(q, x);
          assert q == p[..last];
        }
      } else if p in Space(ms) {
        var q, x :| q in Space(ms[..last]) && 0 <= x < ms[last] && p == Snoc(q, x);
        SpaceExact(ms[..last], q);
      }
    }
  }

  ghost function Appended(points: set<State>, x: int): set<State>
  {
    set p | p in points :: Snoc(p, x)
  }

  lemma AppendedSize(points: set<State>, x: int)
    ensures |Appended(points, x)| == |points|
  {
    forall p, q | p in points && q in points && Snoc(p, x) == Snoc(q, x)
      ensures p == q
    {
      assert p == Snoc(p, x)[..|p|] && q == Snoc(q, x)[..|q|];
    }
    ImageSize(points, Appended(points, x), (p: State) => Snoc(p, x));
  }

  lemma ExtendStep(points: set<State>, m: nat)
    requires m > 0
    ensures Extend(points, m) == Extend(points, m - 1) + Appended(points, m - 1)
    ensures Extend(points, m - 1) !! Appended(points, m - 1)
  {
    var before, added := Extend(points, m - 1), Appended(points, m - 1);
    forall s | s in before
      ensures s !in added
    {
      assert s[|s| - 1] < m - 1;
    }
  }

  lemma {:induction false} ExtendSize(points: set<State>, m: nat)
    ensures |Extend(points, m)| == |points| * m
  {
    if m == 0 {
      assert Extend(points, 0) == {};
    } else {
      ExtendSize(points, m - 1);
      AppendedSize(points, m - 1);
      ExtendStep(points, m);
      Distribute(|points|, m - 1, 1);
    }
  }

  lemma {:induction false} SpaceSize(ms: seq<int>)
    requires forall i :: 0 <= i < |ms| ==> ms[i] >= 1
    ensures |Space(ms)| == ListProduct(ms) >= 1
  {
    if |ms| > 0 {
      SpaceSize(ms[..|ms| - 1]);
      ExtendSize(Space(ms[..|ms| - 1]), ms[|ms| - 1]);
      MulMono(1, ms[|ms| - 1], ListProduct(ms[..|ms| - 1]));
    }
  }

  /** Distinct canonical inputs as many as the product are the whole input space. */
  lemma CensusComplete(inputs: seq<State>, ms: seq<int>)
    requires forall i :: 0 <= i < |ms| ==> ms[i] >= 1
    requires forall i :: 0 <= i < |inputs| ==> Canonical(inputs[i], ms)
    requires |Elements(inputs)| == |inputs| && |inputs| == ListProduct(ms)
    ensures forall p :: Canonical(p, ms) <==> p in inputs
  {
    SpaceSize(ms);
    forall p | p in Elements(inputs)
      ensures p in Space(ms)
    {
      SpaceExact(ms, p);
    }
    SubsetEqual(Elements(inputs), Space(ms));
    forall p
      ensures Canonical(p, ms) <==> p in inputs
    {
      SpaceExact(ms, p);
      assert p in inputs <==> p in Elements(inputs);
    }
  }

  function Elements<T(==)>(s: seq<T>): set<T>
  {
    set x | x in s
  }

  // ----------------------------------------------------------------------- fibres

  ghost function Fibre(ms: seq<int>, i: nat, v: int): set<State>
    requires i < |ms|
  {
    set p | p in Space(ms) && |p| == |ms| && p[i] == v
  }

  lemma FibreMember(ms: seq<int>, i: nat, v: int, p: State)
    requires i < |ms|
    ensures p in Fibre(ms, i, v) <==> Canonical(p, ms) && p[i] == v
  {
    SpaceExact(ms, p);
  }

  lemma FibreEqual(ms: seq<int>, i: nat, v: int, w: int)
    requires i < |ms| && 0 <= v < ms[i] && 0 <= w < ms[i]
    ensures |Fibre(ms, i, v)| == |Fibre(ms, i, w)|
  {
    var move := (p: State) => if i < |p| then p[i := w] else p;
    forall p | p in Fibre(ms, i, v)
      ensures move(p) in Fibre(ms, i, w)
    {
      FibreMember(ms, i, v, p);
      FibreMember(ms, i, w, move(p));
    }
    forall q | q in Fibre(ms, i, w)
      ensures exists p :: p in Fibre(ms, i, v) && move(p) == q
    {
      FibreMember(ms, i, w, q);
      var p := q[i := v];
      FibreMember(ms, i, v, p);
      assert move(p) == q;
    }
    forall p, q | p in Fibre(ms, i, v) && q in Fibre(ms, i, v) && move(p) == move(q)
      ensures p == q
    {
      FibreMember(ms, i, v, p);
      FibreMember(ms, i, v, q);
      assert p == move(p)[i := v] && q == move(q)[i := v];
    }
    ImageSize(Fibre(ms, i, v), Fibre(ms, i, w), move);
  }

  ghost function Below(ms: seq<int>, i: nat, c: int): set<State>
    requires i < |ms|
  {
    set p | p in Space(ms) && |p| == |ms| && p[i] < c
  }

  lemma {:induction false} BelowSize(ms: seq<int>, i: nat, c: nat)
    requires i < |ms| && c <= ms[i]
    ensures |Below(ms, i, c)| == c * |Fibre(ms, i, 0)|
  {
    if c == 0 {
      forall p
        ensures p !in Below(ms, i, 0)
      {
        SpaceExact(ms, p);
      }
      assert Below(ms, i, 0) == {};
    } else {
      BelowSize(ms, i, c - 1);
      FibreEqual(ms, i, 0, c - 1);
      assert Below(ms, i, c) == Below(ms, i, c - 1) + Fibre(ms, i, c - 1);
      DistributeSub(|Fibre(ms, i, 0)|, c, 1);
    }
  }

  /** Every fibre of lane i holds the fraction 1/ms[i] of the space. */
  lemma FibreSize(ms: seq<int>, i: nat, v: int)
    requires i < |ms| && 0 <= v < ms[i] && forall k :: 0 <= k < |ms| ==> ms[k] >= 1
    ensures |Fibre(ms, i, v)| * ms[i] == ListProduct(ms)
  {
    BelowSize(ms, i, ms[i]);
    FibreEqual(ms, i, v, 0);
    forall p
      ensures p in Below(ms, i, ms[i]) <==> p in Space(ms)
    {
      SpaceExact(ms, p);
    }
    assert Below(ms, i, ms[i]) == Space(ms);
    SpaceSize(ms);
  }

  // ------------------------------------------------------------------- uniformity

  /** The values of one lane over the rows. */
  function Lane(outputs: seq<State>, i: nat): (r: seq<int>)
    requires forall k :: 0 <= k < |outputs| ==> i < |outputs[k]|
    ensures |r| == |outputs|
  {
    seq(|outputs|, k requires 0 <= k < |outputs| => outputs[k][i])
  }

  predicate AllCanonical(outputs: seq<State>, target: seq<int>)
  {
    forall k :: 0 <= k < |outputs| ==> Canonical(outputs[k], target)
  }

  /** One lane takes every value, each equally often. */
  predicate UniformLane(outputs: seq<State>, target: seq<int>, i: nat)
    requires i < |target| && AllCanonical(outputs, target)
  {
    var lane := Lane(outputs, i);
    |Elements(lane)| == target[i] && forall v :: v in lane ==> Count(lane, v) * target[i] == |outputs|
  }

  /** prod(marginals[i][point[i]]) over the first k lanes. */
  function MarginalProduct(outputs: seq<State>, target: seq<int>, point: State, k: nat): int
    requires k <= |target| && AllCanonical(outputs, target) && |point| == |target|
  {
    if k == 0 then 1 else MarginalProduct(outputs, target, point, k - 1) * Count(Lane(outputs, k - 1), point[k - 1])
  }

  predicate Factorizes(outputs: seq<State>, target: seq<int>)
    requires |target| > 0 && AllCanonical(outputs, target)
  {
    forall k :: 0 <= k < |outputs| ==>
      Count(outputs, outputs[k]) * Pow(|outputs|, |target| - 1) == MarginalProduct(outputs, target, outputs[k], |target|)
  }

  /** The test of G3, made only at observed values and observed points. */
  predicate PassesG3(outputs: seq<State>, target: seq<int>)
    requires |target| > 0 && AllCanonical(outputs, target)
  {
    (forall i :: 0 <= i < |target| ==> UniformLane(outputs, target, i)) && Factorizes(outputs, target)
  }

  /** Every point of the full output product occurs equally often. */
  ghost predicate JointlyUniform(outputs: seq<State>, target: seq<int>)
  {
    forall p :: Canonical(p, target) ==> Count(outputs, p) * ListProduct(target) == |outputs|
  }

  /** A lane whose observed values are uniform takes every value. */
  lemma LaneMarginal(outputs: seq<State>, target: seq<int>, i: nat, v: int)
    requires i < |target| && AllCanonical(outputs, target) && UniformLane(outputs, target, i) && 0 <= v < target[i]
    ensures Count(Lane(outputs, i), v) * target[i] == |outputs|
  {
    var lane := Lane(outputs, i);
    var all := Range(target[i]);
    RangeSize(target[i]);
    assert Elements(lane) <= all;
    SubsetEqual(Elements(lane), all);
    assert v in Elements(lane);
  }

  function Range(m: nat): set<int>
  {
    if m == 0 then {} else Range(m - 1) + {m - 1}
  }

  lemma {:induction false} RangeSize(m: nat)
    ensures |Range(m)| == m && forall x :: x in Range(m) <==> 0 <= x < m
  {
    if m > 0 {
      RangeSize(m - 1);
    }
  }

  /** With uniform marginals the product of k marginals is n^k over the product of moduli. */
  lemma {:induction false} UniformProduct(outputs: seq<State>, target: seq<int>, point: State, k: nat)
    requires k <= |target| && AllCanonical(outputs, target) && Canonical(point, target)
    requires forall i :: 0 <= i < k ==> Count(Lane(outputs, i), point[i]) * target[i] == |outputs|
    ensures MarginalProduct(outputs, target, point, k) * ListProduct(target[..k]) == Pow(|outputs|, k)
  {
    if k > 0 {
      UniformProduct(outputs, target, point, k - 1);
      assert target[..k][..k - 1] == target[..k - 1];
      ProductSwap(MarginalProduct(outputs, target, point, k - 1), Count(Lane(outputs, k - 1), point[k - 1]),
        ListProduct(target[..k - 1]), target[k - 1]);
    } else {
      assert target[..0] == [];
    }
  }

  lemma ProductSwap(a: int, b: int, c: int, d: int)
    ensures (a * b) * (c * d) == (b * d) * (a * c)
  {
    Assoc(a * b, c, d);
    Exchange(a, b, c);
    Assoc(b, d, a * c);
    Exchange(d, a, c);
    Assoc(a, b, c);
    assert (a * b) * c == b * (a * c);
    Exchange(b * (a * c), 1, d);
    assert (b * (a * c)) * d == b * (d * (a * c));
  }

  /** An observed point that factorizes under uniform marginals occurs n/M times. */
  lemma ObservedCount(outputs: seq<State>, target: seq<int>, k: nat)
    requires |target| > 0 && AllCanonical(outputs, target) && PassesG3(outputs, target) && k < |outputs|
    ensures Count(outputs, outputs[k]) * ListProduct(target) == |outputs|
  {
    var p, n := outputs[k], |outputs|;
    forall i | 0 <= i < |target|
      ensures Count(Lane(outputs, i), p[i]) * target[i] == n
    {
      assert UniformLane(outputs, target, i);
      LaneMarginal(outputs, target, i, p[i]);
    }
    UniformProduct(outputs, target, p, |target|);
    assert target[..|target|] == target;
    var c, q := Count(outputs, p), Pow(n, |target| - 1);
    PowPositive(n, |target| - 1);
    assert (c * q) * ListProduct(target) == n * q;
    CancelPower(c, q, ListProduct(target), n);
  }

  lemma CancelPower(c: int, q: int, m: int, n: int)
    requires q > 0 && (c * q) * m == n * q
    ensures c * m == n
  {
    Assoc(c, q, m);
    Exchange(c, q, m);
    CancelEqual(q, c * m, n);
  }

  /** Observed points occurring n/M times each already fill the whole product. */
  lemma ObservedFill(outputs: seq<State>, target: seq<int>)
    requires |outputs| > 0 && AllCanonical(outputs, target) && forall i :: 0 <= i < |target| ==> target[i] >= 1
    requires forall k :: 0 <= k < |outputs| ==> Count(outputs, outputs[k]) * ListProduct(target) == |outputs|
    ensures JointlyUniform(outputs, target)
  {
    ObservedSize(outputs, Elements(outputs), ListProduct(target));
    ObservedSpace(outputs, target);
    SpaceSize(target);
    SubsetEqual(Elements(outputs), Space(target));
    forall p | Canonical(p, target)
      ensures Count(outputs, p) * ListProduct(target) == |outputs|
    {
      SpaceExact(target, p);
      var k :| 0 <= k < |outputs| && outputs[k] == p;
    }
  }

  /** Rows that all occur n/m times take m values. */
  lemma ObservedSize(outputs: seq<State>, seen: set<State>, m: int)
    requires |outputs| > 0 && seen == Elements(outputs)
    requires forall k :: 0 <= k < |outputs| ==> Count(outputs, outputs[k]) * m == |outputs|
    ensures |seen| == m
  {
    var n := |outputs|;
    forall x | x in seen
      ensures Count(outputs, x) * m == n
    {
      var k :| 0 <= k < |outputs| && outputs[k] == x;
    }
    RowsInAll(outputs, seen);
    RowsSize(outputs, seen, m, n);
  }

  lemma RowsSize(outputs: seq<State>, seen: set<State>, m: int, n: int)
    requires n > 0 && RowsIn(outputs, seen) == n && forall x :: x in seen ==> Count(outputs, x) * m == n
    ensures |seen| == m
  {
    UniformRows(outputs, seen, m, n);
    CancelEqual(n, m, |seen|);
  }

  lemma ObservedSpace(outputs: seq<State>, target: seq<int>)
    requires AllCanonical(outputs, target)
    ensures Elements(outputs) <= Space(target)
  {
    forall x | x in Elements(outputs)
      ensures x in Space(target)
    {
      var k :| 0 <= k < |outputs| && outputs[k] == x;
      SpaceExact(target, x);
    }
  }

  /** Under joint uniformity every lane value occurs n/m times. */
  lemma MarginalCount(outputs: seq<State>, target: seq<int>, i: nat, v: int)
    requires |outputs| > 0 && AllCanonical(outputs, target) && forall k :: 0 <= k < |target| ==> target[k] >= 1
    requires JointlyUniform(outputs, target) && i < |target| && 0 <= v < target[i]
    ensures Count(Lane(outputs, i), v) * target[i] == |outputs|
  {
    var f := Fibre(target, i, v);
    var n, m := |outputs|, ListProduct(target);
    forall x | x in f
      ensures Count(outputs, x) * m == n
    {
      FibreMember(target, i, v, x);
    }
    UniformRows(outputs, f, m, n);
    LaneRows(outputs, target, i, v);
    FibreSize(target, i, v);
    SpaceSize(target);
    // count*m = |f|*n and |f|*target[i] = m
    CancelFibre(Count(Lane(outputs, i), v), m, |f|, n, target[i]);
  }

  lemma CancelFibre(c: int, m: int, f: int, n: int, t: int)
    requires m > 0 && c * m == f * n && f * t == m
    ensures c * t == n
  {
    Assoc(t, c, m);
    Assoc(t, f, n);
    assert (t * c) * m == m * n;
    CancelEqual(m, t * c, n);
  }

  lemma {:induction false} LaneRows(outputs: seq<State>, target: seq<int>, i: nat, v: int)
    requires AllCanonical(outputs, target) && i < |target|
    ensures Count(Lane(outputs, i), v) == RowsIn(outputs, Fibre(target, i, v))
  {
    if |outputs| > 0 {
      var last := |outputs| - 1;
      LaneRows(outputs[..last], target, i, v);
      assert Lane(outputs, i)[..last] == Lane(outputs[..last], i);
      FibreMember(target, i, v, outputs[last]);
    }
  }

  lemma PositiveFactor(a: nat, b: int)
    requires a * b > 0
    ensures a > 0
  {
  }

  lemma UniformLaneFrom(outputs: seq<State>, target: seq<int>, i: nat)
    requires |outputs| > 0 && AllCanonical(outputs, target) && i < |target| && target[i] >= 1
    requires forall v :: 0 <= v < target[i] ==> Count(Lane(outputs, i), v) * target[i] == |outputs|
    ensures UniformLane(outputs, target, i)
  {
    var lane := Lane(outputs, i);
    var all := Range(target[i]);
    RangeSize(target[i]);
    forall v
      ensures v in Elements(lane) <==> v in all
    {
      CountPositive(lane, v);
      if v in all {
        PositiveFactor(Count(lane, v), target[i]);
      }
    }
    assert Elements(lane) == all;
  }

  /**
   The support-only test is exact: for a nonempty census it passes if and only if every
   point of the full output product occurs equally often.
   */
  lemma SupportOnlyExact(outputs: seq<State>, target: seq<int>)
    requires |outputs| > 0 && |target| > 0 && AllCanonical(outputs, target) && forall i :: 0 <= i < |target| ==> target[i] >= 1
    ensures PassesG3(outputs, target) <==> JointlyUniform(outputs, target)
  {
    if PassesG3(outputs, target) {
      forall k | 0 <= k < |outputs|
        ensures Count(outputs, outputs[k]) * ListProduct(target) == |outputs|
      {
        ObservedCount(outputs, target, k);
      }
      ObservedFill(outputs, target);
    }
    if JointlyUniform(outputs, target) {
      JointGivesTest(outputs, target);
    }
  }

  lemma JointGivesTest(outputs: seq<State>, target: seq<int>)
    requires |outputs| > 0 && |target| > 0 && AllCanonical(outputs, target) && forall i :: 0 <= i < |target| ==> target[i] >= 1
    requires JointlyUniform(outputs, target)
    ensures PassesG3(outputs, target)
  {
    forall i | 0 <= i < |target|
      ensures UniformLane(outputs, target, i)
    {
      forall v | 0 <= v < target[i]
        ensures Count(Lane(outputs, i), v) * target[i] == |outputs|
      {
        MarginalCount(outputs, target, i, v);
      }
      UniformLaneFrom(outputs, target, i);
    }
    forall k | 0 <= k < |outputs|
      ensures Count(outputs, outputs[k]) * Pow(|outputs|, |target| - 1) == MarginalProduct(outputs, target, outputs[k], |target|)
    {
      PointFactorizes(outputs, target, outputs[k]);
    }
  }

  lemma PointFactorizes(outputs: seq<State>, target: seq<int>, p: State)
    requires |outputs| > 0 && |target| > 0 && AllCanonical(outputs, target) && forall i :: 0 <= i < |target| ==> target[i] >= 1
    requires JointlyUniform(outputs, target) && Canonical(p, target)
    ensures Count(outputs, p) * Pow(|outputs|, |target| - 1) == MarginalProduct(outputs, target, p, |target|)
  {
    forall i | 0 <= i < |target|
      ensures Count(Lane(outputs, i), p[i]) * target[i] == |outputs|
    {
      MarginalCount(outputs, target, i, p[i]);
    }
    UniformProduct(outputs, target, p, |target|);
    assert target[..|target|] == target;
    SpaceSize(target);
    PointAlgebra(Count(outputs, p), Pow(|outputs|, |target| - 1), ListProduct(target), |outputs|, MarginalProduct(outputs, target, p, |target|));
  }

  lemma PointAlgebra(c: int, q: int, m: int, n: int, r: int)
    requires m > 0 && c * m == n && r * m == n * q
    ensures c * q == r
  {
    Assoc(q, c, m);
    Exchange(c, q, m);
    CancelEqual(m, c * q, r);
  }

  /** When the census has as many rows as the product, uniformity is injectivity. */
  lemma UniformIsInjective(outputs: seq<State>, target: seq<int>)
    requires |outputs| > 0 && |target| > 0 && AllCanonical(outputs, target) && forall i :: 0 <= i < |target| ==> target[i] >= 1
    requires |outputs| == ListProduct(target)
    ensures PassesG3(outputs, target) <==> |Elements(outputs)| == |outputs|
  {
    SupportOnlyExact(outputs, target);
    SpaceSize(target);
    if JointlyUniform(outputs, target) {
      forall p | p in Space(target)
        ensures p in Elements(outputs)
      {
        SpaceExact(target, p);
        CountPositive(outputs, p);
        PositiveFactor(Count(outputs, p), ListProduct(target));
      }
      forall p | p in Elements(outputs)
        ensures p in Space(target)
      {
        SpaceExact(target, p);
      }
      assert Elements(outputs) == Space(target);
    }
    if |Elements(outputs)| == |outputs| {
      CensusComplete(outputs, target);
      forall p | Canonical(p, target)
        ensures Count(outputs, p) * ListProduct(target) == |outputs|
      {
        CountOnce(outputs, p);
      }
    }
  }

  lemma {:induction false} CountOnce<T>(s: seq<T>, x: T)
    requires |Elements(s)| == |s| && x in s
    ensures Count(s, x) == 1
  {
    var last := |s| - 1;
    var rest := s[..last];
    assert s == rest + [s[last]];
    assert Elements(s) == Elements(rest) + {s[last]};
    ElementsSize(rest);
    assert s[last] !in Elements(rest);
    CountPositive(rest, x);
    if x in rest {
      CountOnce(rest, x);
    }
  }

  lemma {:induction false} ElementsSize<T>(s: seq<T>)
    ensures |Elements(s)| <= |s|
  {
    if |s| > 0 {
      var rest := s[..|s| - 1];
      ElementsSize(rest);
      assert s == rest + [s[|s| - 1]];
      assert Elements(s) == Elements(rest) + {s[|s| - 1]};
    }
  }

  // ----------------------------------------------------------------------- gates

  function Inputs(rows: seq<Row>): (r: seq<State>)
    ensures |r| == |rows|
  {
    seq(|rows|, i requires 0 <= i < |rows| => rows[i].input)
  }

  function Outputs(rows: seq<Row>): (r: seq<State>)
    ensures |r| == |rows|
  {
    seq(|rows|, i requires 0 <= i < |rows| => rows[i].output)
  }

  predicate Injective(s: seq<State>)
  {
    |Elements(s)| == |s|
  }

  predicate AllRestored(rows: seq<Row>)
  {
    forall i :: 0 <= i < |rows| ==> rows[i].restored.Some?
  }

  predicate AllExpected(rows: seq<Row>)
  {
    forall i :: 0 <= i < |rows| ==> rows[i].expected.Some?
  }

  predicate RowShaped(row: Row, source: seq<int>, target: seq<int>)
  {
    Canonical(row.input, source) && Canonical(row.output, target)
  }

  predicate VariantsShaped(row: Row, target: seq<int>)
  {
    forall k :: 0 <= k < |row.orderOutputs| ==> Canonical(row.orderOutputs[k], target)
  }

  /** What the audit refuses is the negation of this. */
  predicate WellFormed(t: Trace)
  {
    && Integers(t.inputModuli, 1) && Integers(t.outputModuli, 1) && |t.rows| > 0
    && (forall i :: 0 <= i < |t.rows| ==> RowShaped(t.rows[i], t.inputModuli, t.outputModuli))
    && Injective(Inputs(t.rows))
    && (t.exhaustiveProduct ==> |t.rows| == ListProduct(t.inputModuli))
    && Gateable(t.rows, t.inputModuli, t.outputModuli)
  }

  /** The recorded inverse restores every input. */
  predicate Restores(rows: seq<Row>)
  {
    AllRestored(rows) && forall i :: 0 <= i < |rows| ==> rows[i].restored.value == rows[i].input
  }

  predicate Agrees(row: Row)
  {
    forall k :: 0 <= k < |row.orderOutputs| ==> row.orderOutputs[k] == row.output
  }

  /** G1: collisions and inverse mismatches, counted over the rows. */
  method GateInverse(rows: seq<Row>, source: seq<int>) returns (g: Option<Verdict>)
    ensures g.None? <==> AllRestored(rows) && exists i :: 0 <= i < |rows| && !Canonical(rows[i].restored.value, source)
    ensures g == Some(Pass) ==> Injective(Outputs(rows)) && Restores(rows)
    ensures g == Some(Fail) <==> g.Some? && (!Injective(Outputs(rows)) || (AllRestored(rows) && !Restores(rows)))
    ensures g == Some(Unverified) <==> g.Some? && Injective(Outputs(rows)) && !AllRestored(rows)
  {
    ElementsSize(Outputs(rows));
    var collisions := |rows| - |Elements(Outputs(rows))|;
    var bad := 0;
    var present := AllRestored(rows);
    if present {
      for i := 0 to |rows|
        invariant bad >= 0
        invariant forall j :: 0 <= j < i ==> Canonical(rows[j].restored.value, source)
        invariant bad == 0 <==> forall j :: 0 <= j < i ==> rows[j].restored.value == rows[j].input
      {
        if !Canonical(rows[i].restored.value, source) {
          return None;
        }
        bad := bad + (if rows[i].restored.value != rows[i].input then 1 else 0);
      }
    }
    if collisions != 0 || bad != 0 {
      return Some(Fail);
    }
    return Some(if present then Pass else Unverified);
  }

  /** G2: every supplied schedule output agrees, and every row supplies one. */
  method GateSchedules(rows: seq<Row>, target: seq<int>) returns (g: Option<Verdict>)
    ensures g.None? <==> exists i :: 0 <= i < |rows| && !VariantsShaped(rows[i], target)
    ensures g == Some(Fail) <==> g.Some? && exists i :: 0 <= i < |rows| && !Agrees(rows[i])
    ensures g == Some(Pass) <==> g.Some? && forall i :: 0 <= i < |rows| ==> Agrees(rows[i]) && |rows[i].orderOutputs| > 0
  {
    var bad := 0;
    var complete := true;
    for i := 0 to |rows|
      invariant bad >= 0
      invariant forall j :: 0 <= j < i ==> VariantsShaped(rows[j], target)
      invariant bad == 0 <==> forall j :: 0 <= j < i ==> Agrees(rows[j])
      invariant complete <==> forall j :: 0 <= j < i ==> |rows[j].orderOutputs| > 0
    {
      var row := rows[i];
      if |row.orderOutputs| == 0 {
        complete := false;
        continue;
      }
      var before := bad;
      for k := 0 to |row.orderOutputs|
        invariant bad >= before
        invariant forall j :: 0 <= j < k ==> Canonical(row.orderOutputs[j], target)
        invariant bad == before <==> forall j :: 0 <= j < k ==> row.orderOutputs[j] == row.output
      {
        if !Canonical(row.orderOutputs[k], target) {
          assert !VariantsShaped(row, target);
          return None;
        }
        bad := bad + (if row.orderOutputs[k] != row.output then 1 else 0);
      }
      assert bad == before <==> Agrees(row);
    }
    return Some(if bad != 0 then Fail else if complete then Pass else Unverified);
  }

  /** G4: independently expected outputs. */
  method GateExpected(rows: seq<Row>, target: seq<int>) returns (g: Option<Verdict>)
    ensures g.None? <==> AllExpected(rows) && exists i :: 0 <= i < |rows| && !Canonical(rows[i].expected.value, target)
    ensures g == Some(Pass) <==> g.Some? && AllExpected(rows) && forall i :: 0 <= i < |rows| ==> rows[i].expected.value == rows[i].output
    ensures g == Some(Unverified) <==> !AllExpected(rows)
  {
    if !AllExpected(rows) {
      return Some(Unverified);
    }
    var bad := 0;
    for i := 0 to |rows|
      invariant bad >= 0
      invariant forall j :: 0 <= j < i ==> Canonical(rows[j].expected.value, target)
      invariant bad == 0 <==> forall j :: 0 <= j < i ==> rows[j].expected.value == rows[j].output
    {
      if !Canonical(rows[i].expected.value, target) {
        return None;
      }
      bad := bad + (if rows[i].expected.value != rows[i].output then 1 else 0);
    }
    return Some(if bad != 0 then Fail else Pass);
  }

  method AllShaped(rows: seq<Row>, source: seq<int>, target: seq<int>) returns (shaped: bool)
    ensures shaped <==> forall i :: 0 <= i < |rows| ==> RowShaped(rows[i], source, target)
  {
    for i := 0 to |rows|
      invariant forall j :: 0 <= j < i ==> RowShaped(rows[j], source, target)
    {
      if !RowShaped(rows[i], source, target) {
        return false;
      }
    }
    return true;
  }

  /** The verdict of G3, decided at the observed points of an exhaustive census only. */
  method GateUniform(outputs: seq<State>, target: seq<int>, exhaustive: bool) returns (g: Verdict)
    requires |outputs| > 0 && |target| > 0 && AllCanonical(outputs, target) && forall i :: 0 <= i < |target| ==> target[i] >= 1
    ensures g == Pass <==> exhaustive && JointlyUniform(outputs, target)
    ensures g == Unverified <==> !exhaustive
  {
    SupportOnlyExact(outputs, target);
    g := if !exhaustive then Unverified else if PassesG3(outputs, target) then Pass else Fail;
  }

  /**
   The audit of the first four gates. It refuses exactly the malformed traces. An
   exhaustive report has seen the whole input space, and then G3 says exactly whether
   every point of the full output product occurs equally often.
   */
  method AuditTrace(t: Trace) returns (result: Result<Report>)
    ensures result.Ok? <==> WellFormed(t)
    ensures result.Ok? ==> (result.value.exhaustive <==> t.exhaustiveProduct)
    ensures result.Ok? && result.value.exhaustive ==> forall p :: Canonical(p, t.inputModuli) <==> p in Inputs(t.rows)
    ensures result.Ok? ==> (result.value.g1 == Pass <==> Injective(Outputs(t.rows)) && Restores(t.rows))
    ensures result.Ok? ==> (result.value.g1 == Fail <==> !Injective(Outputs(t.rows)) || (AllRestored(t.rows) && !Restores(t.rows)))
    ensures result.Ok? ==> (result.value.g2 == Pass <==> forall i :: 0 <= i < |t.rows| ==> Agrees(t.rows[i]) && |t.rows[i].orderOutputs| > 0)
    ensures result.Ok? ==> (result.value.g2 == Fail <==> exists i :: 0 <= i < |t.rows| && !Agrees(t.rows[i]))
    ensures result.Ok? ==> (result.value.g3 == Pass <==> result.value.exhaustive && JointlyUniform(Outputs(t.rows), t.outputModuli))
    ensures result.Ok? ==> (result.value.g3 == Unverified <==> !result.value.exhaustive)
    ensures result.Ok? ==> (result.value.g4 == Pass <==> AllExpected(t.rows) && forall i :: 0 <= i < |t.rows| ==> t.rows[i].expected.value == t.rows[i].output)
    ensures result.Ok? ==> (result.value.g4 == Unverified <==> !AllExpected(t.rows))
  {
    var source, target, rows := t.inputModuli, t.outputModuli, t.rows;
    if !Integers(source, 1) || !Integers(target, 1) || |rows| == 0 {
      return Err;
    }
    var shaped := AllShaped(rows, source, target);
    if !shaped {
      return Err;
    }
    var inputs, outputs := Inputs(rows), Outputs(rows);
    if |Elements(inputs)| != |inputs| {
      return Err;
    }
    var complete := |inputs| == ListProduct(source);
    if t.exhaustiveProduct && !complete {
      return Err;
    }
    var exhaustive := complete && t.exhaustiveProduct;
    if exhaustive {
      CensusComplete(inputs, source);
    }
    result := RunGates(rows, source, target, exhaustive);
  }

  /** The rows on which no gate meets a malformed state. */
  predicate Gateable(rows: seq<Row>, source: seq<int>, target: seq<int>)
  {
    && (AllRestored(rows) ==> forall i :: 0 <= i < |rows| ==> Canonical(rows[i].restored.value, source))
    && (forall i :: 0 <= i < |rows| ==> VariantsShaped(rows[i], target))
    && (AllExpected(rows) ==> forall i :: 0 <= i < |rows| ==> Canonical(rows[i].expected.value, target))
  }

  /** The four gates over shaped rows. */
  method RunGates(rows: seq<Row>, source: seq<int>, target: seq<int>, exhaustive: bool) returns (result: Result<Report>)
    requires |rows| > 0 && Integers(target, 1) && forall i :: 0 <= i < |rows| ==> RowShaped(rows[i], source, target)
    ensures result.Ok? <==> Gateable(rows, source, target)
    ensures result.Ok? ==> result.value.exhaustive == exhaustive
    ensures result.Ok? ==> (result.value.g1 == Pass <==> Injective(Outputs(rows)) && Restores(rows))
    ensures result.Ok? ==> (result.value.g1 == Fail <==> !Injective(Outputs(rows)) || (AllRestored(rows) && !Restores(rows)))
    ensures result.Ok? ==> (result.value.g2 == Pass <==> forall i :: 0 <= i < |rows| ==> Agrees(rows[i]) && |rows[i].orderOutputs| > 0)
    ensures result.Ok? ==> (result.value.g2 == Fail <==> exists i :: 0 <= i < |rows| && !Agrees(rows[i]))
    ensures result.Ok? ==> (result.value.g3 == Pass <==> exhaustive && JointlyUniform(Outputs(rows), target))
    ensures result.Ok? ==> (result.value.g3 == Unverified <==> !exhaustive)
    ensures result.Ok? ==> (result.value.g4 == Pass <==> AllExpected(rows) && forall i :: 0 <= i < |rows| ==> rows[i].expected.value == rows[i].output)
    ensures result.Ok? ==> (result.value.g4 == Unverified <==> !AllExpected(rows))
  {
    var g1 := GateInverse(rows, source);
    if g1.None? {
      return Err;
    }
    var g2 := GateSchedules(rows, target);
    if g2.None? {
      return Err;
    }
    var g3 := GateUniform(Outputs(rows), target, exhaustive);
    var g4 := GateExpected(rows, target);
    if g4.None? {
      return Err;
    }
    return Ok(Report(exhaustive, g1.value, g2.value, g3, g4.value));
  }

  // ------------------------------------------------------------------ construction

  /** The states over m values of a further lane, that lane fastest. */
  function ExtendList(points: seq<State>, m: nat): seq<State>
  {
    if |points| == 0 then []
    else ExtendList(points[..|points| - 1], m) + seq(m, x requires 0 <= x < m => Snoc(points[|points| - 1], x))
  }

  /** itertools.product over the ranges of the moduli. */
  function ProductList(ms: seq<int>): seq<State>
    requires forall i :: 0 <= i < |ms| ==> ms[i] >= 0
  {
    if |ms| == 0 then [[]] else ExtendList(ProductList(ms[..|ms| - 1]), ms[|ms| - 1])
  }

  lemma {:induction false} ExtendListExact(points: seq<State>, m: nat)
    ensures |ExtendList(points, m)| == |points| * m
    ensures Elements(ExtendList(points, m)) == Extend(Elements(points), m)
  {
    if |points| > 0 {
      var last := |points| - 1;
      var p, rest := points[last], points[..last];
      var row := seq(m, x requires 0 <= x < m => Snoc(p, x));
      ExtendListExact(rest, m);
      DistributeSub(m, |points|, 1);
      assert points == rest + [p];
      forall s
        ensures s in Elements(ExtendList(points, m)) <==> s in Extend(Elements(points), m)
      {
        if s in Extend(Elements(points), m) {
          var q, x :| q in Elements(points) && 0 <= x < m && s == Snoc(q, x);
          if q == p {
            assert row[x] == s;
          } else {
            assert q in Elements(rest);
            assert s in Elements(ExtendList(rest, m));
          }
        }
        if s in ExtendList(points, m) {
          if s in row {
            var x :| 0 <= x < m && row[x] == s;
            assert p in Elements(points);
          } else {
            assert s in Elements(ExtendList(rest, m));
          }
        }
      }
    }
  }

  lemma {:induction false} ProductListExact(ms: seq<int>)
    requires forall i :: 0 <= i < |ms| ==> ms[i] >= 0
    ensures |ProductList(ms)| == ListProduct(ms) && Elements(ProductList(ms)) == Space(ms)
  {
    if |ms| > 0 {
      ProductListExact(ms[..|ms| - 1]);
      ExtendListExact(ProductList(ms[..|ms| - 1]), ms[|ms| - 1]);
    } else {
      var origin: seq<State> := [[]];
      assert Elements(origin) == {origin[0]};
    }
  }

  /** sorted(order) == list(range(n)) */
  predicate Permutation(order: seq<int>, n: nat)
  {
    |order| == n && Elements(order) == Range(n)
  }

  /** The row collected for one state. */
  function Observe(state: State, orders: seq<seq<int>>, step: (State, seq<int>) -> State,
                   inverse: Option<State -> State>, expected: Option<State -> State>): Row
    requires |orders| > 0
  {
    var output := step(state, orders[0]);
    Row(state, output,
        if inverse.Some? then Some(inverse.value(output)) else None,
        if expected.Some? then Some(expected.value(state)) else None,
        seq(|orders| - 1, k requires 0 <= k < |orders| - 1 => step(state, orders[k + 1])))
  }

  /** The parameters with which the operation is run at all. */
  predicate Constructible(source: seq<int>, orders: seq<seq<int>>, maxStates: int)
  {
    && Integers(source, 1) && ListProduct(source) <= maxStates && |orders| > 0
    && forall k :: 0 <= k < |orders| ==> Permutation(orders[k], |source|)
  }

  function ObservedRows(source: seq<int>, orders: seq<seq<int>>, step: (State, seq<int>) -> State,
                        inverse: Option<State -> State>, expected: Option<State -> State>): (rows: seq<Row>)
    requires Integers(source, 1) && |orders| > 0
    ensures |rows| == |ProductList(source)|
  {
    var domain := ProductList(source);
    seq(|domain|, i requires 0 <= i < |domain| => Observe(domain[i], orders, step, inverse, expected))
  }

  /** The inverse undoes the operation on every input. */
  ghost predicate Undoes(source: seq<int>, orders: seq<seq<int>>, step: (State, seq<int>) -> State, inverse: Option<State -> State>)
    requires |orders| > 0 && inverse.Some?
  {
    forall x :: Canonical(x, source) ==> inverse.value(step(x, orders[0])) == x
  }

  /** No two inputs share an output. */
  ghost predicate OneToOne(source: seq<int>, orders: seq<seq<int>>, step: (State, seq<int>) -> State)
    requires |orders| > 0
  {
    forall x, y :: Canonical(x, source) && Canonical(y, source) && step(x, orders[0]) == step(y, orders[0]) ==> x == y
  }

  /** Every schedule gives the first one's output on every input. */
  ghost predicate SchedulesAgree(source: seq<int>, orders: seq<seq<int>>, step: (State, seq<int>) -> State)
    requires |orders| > 0
  {
    forall x, k :: Canonical(x, source) && 0 < k < |orders| ==> step(x, orders[k]) == step(x, orders[0])
  }

  /** The operation is the expected one on every input. */
  ghost predicate Matches(source: seq<int>, orders: seq<seq<int>>, step: (State, seq<int>) -> State, expected: Option<State -> State>)
    requires |orders| > 0 && expected.Some?
  {
    forall x :: Canonical(x, source) ==> expected.value(x) == step(x, orders[0])
  }

  /**
   Running the operation over the whole input product and auditing the observations. A
   passed gate is a statement about the operation on every input: its inverse undoes it,
   its schedules agree, its outputs are jointly uniform, it matches the expectation.
   */
  method AuditConstruct(source: seq<int>, target: seq<int>, orders: seq<seq<int>>, maxStates: int,
                        step: (State, seq<int>) -> State, inverse: Option<State -> State>, expected: Option<State -> State>)
    returns (result: Result<Report>)
    ensures result.Ok? <==> Constructible(source, orders, maxStates)
                            && WellFormed(Trace(source, target, true, ObservedRows(source, orders, step, inverse, expected)))
    ensures result.Ok? ==> (result.value.g1 == Pass <==> inverse.Some? && Undoes(source, orders, step, inverse))
    ensures result.Ok? ==> (result.value.g1 == Unverified <==> inverse.None? && OneToOne(source, orders, step))
    ensures result.Ok? ==> (result.value.g2 == Pass <==> |orders| > 1 && SchedulesAgree(source, orders, step))
    ensures result.Ok? ==> (result.value.g2 == Fail <==> !SchedulesAgree(source, orders, step))
    ensures result.Ok? ==> (result.value.g3 == Pass <==>
              JointlyUniform(Outcomes(ProductList(source), orders, step), target))
    ensures result.Ok? ==> (result.value.g4 == Pass <==> expected.Some? && Matches(source, orders, step, expected))
    ensures result.Ok? ==> (result.value.g4 == Unverified <==> expected.None?)
  {
    if !Integers(source, 1) || ListProduct(source) > maxStates || |orders| == 0 {
      return Err;
    }
    var permuted := AllPermutations(orders, |source|);
    if !permuted {
      return Err;
    }
    var rows := ObserveAll(source, orders, step, inverse, expected);
    result := AuditTrace(Trace(source, target, true, rows));
    if result.Ok? {
      ObservedMeaning(source, orders, step, inverse, expected, rows);
      OutcomesInjective(source, orders, step);
    }
  }

  method AllPermutations(orders: seq<seq<int>>, n: nat) returns (permuted: bool)
    ensures permuted <==> forall k :: 0 <= k < |orders| ==> Permutation(orders[k], n)
  {
    for k := 0 to |orders|
      invariant forall j :: 0 <= j < k ==> Permutation(orders[j], n)
    {
      if !Permutation(orders[k], n) {
        return false;
      }
    }
    return true;
  }

  /** One row for every state of the input product. */
  method ObserveAll(source: seq<int>, orders: seq<seq<int>>, step: (State, seq<int>) -> State,
                    inverse: Option<State -> State>, expected: Option<State -> State>) returns (rows: seq<Row>)
    requires Integers(source, 1) && |orders| > 0
    ensures rows == ObservedRows(source, orders, step, inverse, expected)
    ensures |rows| == |ProductList(source)| && forall j :: 0 <= j < |rows| ==> rows[j] == Observe(ProductList(source)[j], orders, step, inverse, expected)
  {
    var domain := ProductList(source);
    rows := [];
    for i := 0 to |domain|
      invariant |rows| == i
      invariant forall j :: 0 <= j < i ==> rows[j] == Observe(domain[j], orders, step, inverse, expected)
    {
      rows := rows + [Observe(domain[i], orders, step, inverse, expected)];
    }
  }

  /** What the observations of every state say about the operation. */
  lemma ObservedMeaning(source: seq<int>, orders: seq<seq<int>>, step: (State, seq<int>) -> State,
                        inverse: Option<State -> State>, expected: Option<State -> State>, rows: seq<Row>)
    requires Integers(source, 1) && |orders| > 0 && |rows| == |ProductList(source)| > 0
    requires forall j :: 0 <= j < |rows| ==> rows[j] == Observe(ProductList(source)[j], orders, step, inverse, expected)
    ensures Outputs(rows) == Outcomes(ProductList(source), orders, step)
    ensures Restores(rows) <==> inverse.Some? && Undoes(source, orders, step, inverse)
    ensures AllRestored(rows) <==> inverse.Some?
    ensures (forall i :: 0 <= i < |rows| ==> Agrees(rows[i])) <==> SchedulesAgree(source, orders, step)
    ensures AllExpected(rows) <==> expected.Some?
    ensures AllExpected(rows) && (forall i :: 0 <= i < |rows| ==> rows[i].expected.value == rows[i].output) <==>
              expected.Some? && Matches(source, orders, step, expected)
  {
    assert rows[0] == Observe(ProductList(source)[0], orders, step, inverse, expected);
    if inverse.Some? {
      RestoredMeaning(source, orders, step, inverse, expected, rows);
    }
    AgreedMeaning(source, orders, step, inverse, expected, rows);
    if expected.Some? {
      ExpectedMeaning(source, orders, step, inverse, expected, rows);
    }
  }

  lemma RestoredMeaning(source: seq<int>, orders: seq<seq<int>>, step: (State, seq<int>) -> State,
                        inverse: Option<State -> State>, expected: Option<State -> State>, rows: seq<Row>)
    requires Integers(source, 1) && |orders| > 0 && |rows| == |ProductList(source)| && inverse.Some?
    requires forall j :: 0 <= j < |rows| ==> rows[j] == Observe(ProductList(source)[j], orders, step, inverse, expected)
    ensures AllRestored(rows)
    ensures (forall i :: 0 <= i < |rows| ==> rows[i].restored.value == rows[i].input) <==> Undoes(source, orders, step, inverse)
  {
    if forall i :: 0 <= i < |rows| ==> rows[i].restored.value == rows[i].input {
      forall x | Canonical(x, source)
        ensures inverse.value(step(x, orders[0])) == x
      {
        var j := ObservedAt(source, orders, step, inverse, expected, rows, x);
        assert rows[j].restored.value == rows[j].input;
      }
    } else {
      var i :| 0 <= i < |rows| && rows[i].restored.value != rows[i].input;
      DomainCanonical(source, i);
    }
  }

  lemma AgreedMeaning(source: seq<int>, orders: seq<seq<int>>, step: (State, seq<int>) -> State,
                      inverse: Option<State -> State>, expected: Option<State -> State>, rows: seq<Row>)
    requires Integers(source, 1) && |orders| > 0 && |rows| == |ProductList(source)|
    requires forall j :: 0 <= j < |rows| ==> rows[j] == Observe(ProductList(source)[j], orders, step, inverse, expected)
    ensures (forall i :: 0 <= i < |rows| ==> Agrees(rows[i])) <==> SchedulesAgree(source, orders, step)
  {
    if forall i :: 0 <= i < |rows| ==> Agrees(rows[i]) {
      forall x, k | Canonical(x, source) && 0 < k < |orders|
        ensures step(x, orders[k]) == step(x, orders[0])
      {
        var j := ObservedAt(source, orders, step, inverse, expected, rows, x);
        assert Agrees(rows[j]);
        assert rows[j].orderOutputs[k - 1] == rows[j].output;
      }
    } else {
      var i :| 0 <= i < |rows| && !Agrees(rows[i]);
      DomainCanonical(source, i);
      var k := Disagreement(ProductList(source)[i], orders, step, inverse, expected);
    }
  }

  lemma Disagreement(x: State, orders: seq<seq<int>>, step: (State, seq<int>) -> State,
                     inverse: Option<State -> State>, expected: Option<State -> State>) returns (k: nat)
    requires |orders| > 0 && !Agrees(Observe(x, orders, step, inverse, expected))
    ensures 0 < k < |orders| && step(x, orders[k]) != step(x, orders[0])
  {
    var row := Observe(x, orders, step, inverse, expected);
    var j :| 0 <= j < |row.orderOutputs| && row.orderOutputs[j] != row.output;
    k := j + 1;
  }

  lemma ExpectedMeaning(source: seq<int>, orders: seq<seq<int>>, step: (State, seq<int>) -> State,
                        inverse: Option<State -> State>, expected: Option<State -> State>, rows: seq<Row>)
    requires Integers(source, 1) && |orders| > 0 && |rows| == |ProductList(source)| && expected.Some?
    requires forall j :: 0 <= j < |rows| ==> rows[j] == Observe(ProductList(source)[j], orders, step, inverse, expected)
    ensures AllExpected(rows)
    ensures (forall i :: 0 <= i < |rows| ==> rows[i].expected.value == rows[i].output) <==> Matches(source, orders, step, expected)
  {
    if forall i :: 0 <= i < |rows| ==> rows[i].expected.value == rows[i].output {
      forall x | Canonical(x, source)
        ensures expected.value(x) == step(x, orders[0])
      {
        var j := ObservedAt(source, orders, step, inverse, expected, rows, x);
        assert rows[j].expected.value == rows[j].output;
      }
    } else {
      var i :| 0 <= i < |rows| && rows[i].expected.value != rows[i].output;
      DomainCanonical(source, i);
    }
  }

  lemma {:induction false} InjectiveExact(s: seq<State>)
    ensures Injective(s) <==> forall i, j :: 0 <= i < j < |s| ==> s[i] != s[j]
  {
    if |s| > 0 {
      var last := |s| - 1;
      var rest := s[..last];
      InjectiveExact(rest);
      ElementsSize(rest);
      assert s == rest + [s[last]];
      assert Elements(s) == Elements(rest) + {s[last]};
      if s[last] in Elements(rest) {
        var i :| 0 <= i < last && rest[i] == s[last];
        assert Elements(s) == Elements(rest);
      } else {
        assert forall i :: 0 <= i < last ==> s[i] == rest[i] && rest[i] in Elements(rest);
      }
    }
  }

  /** The observed outputs are distinct exactly when the operation is one to one. */
  lemma OutcomesInjective(source: seq<int>, orders: seq<seq<int>>, step: (State, seq<int>) -> State)
    requires Integers(source, 1) && |orders| > 0
    ensures Injective(Outcomes(ProductList(source), orders, step)) <==> OneToOne(source, orders, step)
  {
    var domain, outcomes := ProductList(source), Outcomes(ProductList(source), orders, step);
    ProductListExact(source);
    SpaceSize(source);
    InjectiveExact(domain);
    InjectiveExact(outcomes);
    if OneToOne(source, orders, step) {
      forall i, j | 0 <= i < j < |domain|
        ensures outcomes[i] != outcomes[j]
      {
        DomainCanonical(source, i);
        DomainCanonical(source, j);
      }
    }
    if Injective(outcomes) {
      forall x, y | Canonical(x, source) && Canonical(y, source) && step(x, orders[0]) == step(y, orders[0])
        ensures x == y
      {
        var i, j := DomainIndex(source, x), DomainIndex(source, y);
        assert outcomes[i] == outcomes[j];
      }
    }
  }

  ghost function DomainIndex(source: seq<int>, x: State): (j: nat)
    requires Integers(source, 1) && Canonical(x, source)
    ensures j < |ProductList(source)| && ProductList(source)[j] == x
  {
    ProductListExact(source);
    SpaceExact(source, x);
    assert x in Elements(ProductList(source));
    var j :| 0 <= j < |ProductList(source)| && ProductList(source)[j] == x;
    j
  }

  lemma DomainCanonical(source: seq<int>, i: nat)
    requires Integers(source, 1) && i < |ProductList(source)|
    ensures Canonical(ProductList(source)[i], source)
  {
    ProductListExact(source);
    assert ProductList(source)[i] in Elements(ProductList(source));
    SpaceExact(source, ProductList(source)[i]);
  }

  lemma ObservedAt(source: seq<int>, orders: seq<seq<int>>, step: (State, seq<int>) -> State,
                   inverse: Option<State -> State>, expected: Option<State -> State>, rows: seq<Row>, x: State)
    returns (j: nat)
    requires Integers(source, 1) && |orders| > 0 && |rows| == |ProductList(source)| && Canonical(x, source)
    requires forall j :: 0 <= j < |rows| ==> rows[j] == Observe(ProductList(source)[j], orders, step, inverse, expected)
    ensures j < |rows| && rows[j] == Observe(x, orders, step, inverse, expected)
  {
    j := DomainIndex(source, x);
  }

  function Outcomes(domain: seq<State>, orders: seq<seq<int>>, step: (State, seq<int>) -> State): (r: seq<State>)
    requires |orders| > 0
    ensures |r| == |domain|
  {
    seq(|domain|, i requires 0 <= i < |domain| => step(domain[i], orders[0]))
  }
}
