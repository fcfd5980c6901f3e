/**
 The paired-lift gate domain: the interval of residuals with given rounded weights, and
 the greedy search for a residual list with a prescribed rounded total and lift.
 */
module GateDomain {
  import opened Arith
  import opened Wrappers

  /** The public parameters: source modulus, weight scale, the two coordinates and the list size. */
  datatype Domain = Domain(q: int, scale: int, first: int, second: int, size: nat)

  /** The source modulus and the coordinates are odd, so no residual rounds at a tie. */
  predicate Odd(d: Domain)
  {
    && d.q > 0 && d.q % 2 == 1 && d.scale > 0 && d.size >= 1
    && d.first > 0 && d.first % 2 == 1 && d.second > 0 && d.second % 2 == 1
  }

  /** -((-a) // b) */
  function Ceiling(a: int, b: int): int
    requires b > 0
  {
    -((-a) / b)
  }

  lemma CeilingExact(a: int, b: int, x: int)
    requires b > 0
    ensures Ceiling(a, b) <= x <==> a <= b * x
  {
    var c, r := (-a) / b, (-a) % b;
    assert -a == b * c + r;
    if -c <= x {
      MulMono(-c, x, b);
    } else {
      MulMono(x, -c - 1, b);
      DistributeSub(b, -c, 1);
    }
  }

  /** The rounded weight of a residual in one coordinate. */
  function RoundWeight(residual: int, coordinate: int, d: Domain): int
    requires coordinate * d.q > 0
  {
    (2 * d.scale * residual + coordinate * d.q) / (2 * (coordinate * d.q))
  }

  lemma CoordinatesPositive(d: Domain)
    requires Odd(d)
    ensures d.first * d.q > 0 && d.second * d.q > 0
    ensures (d.first * d.q) % 2 == 1 && (d.second * d.q) % 2 == 1
  {
    OddProduct(d.first, d.q);
    OddProduct(d.second, d.q);
  }

  lemma OddProduct(a: int, b: int)
    requires a > 0 && b > 0 && a % 2 == 1 && b % 2 == 1
    ensures a * b > 0 && (a * b) % 2 == 1
  {
    MulMono(1, a, b);
    OddMultiple(a / 2, b);
  }

  lemma OddMultiple(h: int, b: int)
    ensures (2 * h + 1) * b == 2 * (h * b) + b
  {
    Distribute(b, 2 * h, 1);
    Assoc(2, h, b);
  }

  /** Both bounds of the residuals that round to the value in both coordinates. */
  function RoundingCell(value: int, d: Domain): (int, int)
    requires d.scale > 0
  {
    var low := Max(Ceiling(d.first * d.q * (2 * value - 1), 2 * d.scale), Ceiling(d.second * d.q * (2 * value - 1), 2 * d.scale));
    var high := Min(Ceiling(d.first * d.q * (2 * value + 1), 2 * d.scale) - 1,
                    Ceiling(d.second * d.q * (2 * value + 1), 2 * d.scale) - 1);
    (Max(low, -(d.q / 2)), Min(high, d.q / 2))
  }

  /** r rounds to the value exactly between the two half-cell bounds. */
  lemma WeightBounds(r: int, value: int, w: int, scale: int)
    requires w > 0 && scale > 0
    ensures (2 * scale * r + w) / (2 * w) == value <==>
              Ceiling(w * (2 * value - 1), 2 * scale) <= r <= Ceiling(w * (2 * value + 1), 2 * scale) - 1
  {
    CeilingExact(w * (2 * value - 1), 2 * scale, r);
    CeilingExact(w * (2 * value + 1), 2 * scale, r);
    var z := 2 * scale * r + w;
    var v := z / (2 * w);
    assert w * (2 * value - 1) == (2 * w) * value - w && w * (2 * value + 1) == (2 * w) * value + w;
    if (2 * w) * value <= z < (2 * w) * value + 2 * w {
      DivModUnique(z, 2 * w, value, z - (2 * w) * value);
    }
  }

  /** The cell is exactly the set of centered residuals with both rounded weights. */
  lemma CellExact(r: int, value: int, d: Domain)
    requires Odd(d) && d.first * d.q > 0 && d.second * d.q > 0
    ensures RoundingCell(value, d).0 <= r <= RoundingCell(value, d).1 <==>
              RoundWeight(r, d.first, d) == value && RoundWeight(r, d.second, d) == value && Abs(r) <= d.q / 2
  {
    WeightBounds(r, value, d.first * d.q, d.scale);
    WeightBounds(r, value, d.second * d.q, d.scale);
  }

  /** No ties: negating a residual negates its rounded weight. */
  lemma WeightOdd(r: int, w: int, scale: int)
    requires w > 0 && w % 2 == 1
    ensures (2 * scale * -r + w) / (2 * w) == -((2 * scale * r + w) / (2 * w))
  {
    var z := 2 * scale * r + w;
    var v, e := z / (2 * w), z % (2 * w);
    assert 2 * scale * -r == -(2 * scale * r);
    assert (2 * w) * -v == -((2 * w) * v);
    assert z == 2 * (w * v) + e && z == 2 * (scale * r) + w by {
      Assoc(2, w, v);
      Assoc(2, scale, r);
    }
    assert e != 0;
    DivModUnique(2 * scale * -r + w, 2 * w, -v, 2 * w - e);
  }

  // ------------------------------------------------------------------ the lists

  /** The rounded total |t| spread as evenly as possible over the positions. */
  function Share(t: nat, size: nat, i: nat): int
    requires size >= 1
  {
    t / size + (if i < t % size then 1 else 0)
  }

  function ShareSum(t: nat, size: nat, n: nat): int
    requires size >= 1
  {
    if n == 0 then 0 else ShareSum(t, size, n - 1) + Share(t, size, n - 1)
  }

  lemma {:induction false} SharePrefix(t: nat, size: nat, n: nat)
    requires size >= 1
    ensures ShareSum(t, size, n) == n * (t / size) + Min(n, t % size)
  {
    if n > 0 {
      SharePrefix(t, size, n - 1);
      DistributeSub(t / size, n, 1);
    }
  }

  /** The shares add up to the whole. */
  lemma ShareTotal(t: nat, size: nat)
    requires size >= 1
    ensures ShareSum(t, size, size) == t
  {
    SharePrefix(t, size, size);
    assert size * (t / size) + t % size == t;
  }

  /** The rounding cells of the evenly spread total. */
  function Cells(t: nat, d: Domain): (cells: seq<(int, int)>)
    requires d.scale > 0 && d.size >= 1
    ensures |cells| == d.size
  {
    seq(d.size, i requires 0 <= i < d.size => RoundingCell(Share(t, d.size, i), d))
  }

  predicate Proper(cells: seq<(int, int)>)
  {
    forall i :: 0 <= i < |cells| ==> cells[i].0 <= cells[i].1
  }

  function Lows(cells: seq<(int, int)>): (r: seq<int>)
    ensures |r| == |cells|
  {
    seq(|cells|, i requires 0 <= i < |cells| => cells[i].0)
  }

  function Highs(cells: seq<(int, int)>): (r: seq<int>)
    ensures |r| == |cells|
  {
    seq(|cells|, i requires 0 <= i < |cells| => cells[i].1)
  }

  /** One residual from each of the first cells. */
  predicate Chosen(rs: seq<int>, cells: seq<(int, int)>)
  {
    |rs| <= |cells| && forall i :: 0 <= i < |rs| ==> cells[i].0 <= rs[i] <= cells[i].1
  }

  lemma {:induction false} SumMono(a: seq<int>, b: seq<int>)
    requires |a| == |b| && forall i :: 0 <= i < |a| ==> a[i] <= b[i]
    ensures Sum(a) <= Sum(b)
  {
    if |a| > 0 {
      SumMono(a[..|a| - 1], b[..|b| - 1]);
    }
  }

  lemma {:induction false} SumUpdate(a: seq<int>, i: nat, x: int)
    requires i < |a|
    ensures Sum(a[i := x]) == Sum(a) - a[i] + x
  {
    var last := |a| - 1;
    if i == last {
      assert a[i := x][..last] == a[..last];
    } else {
      SumUpdate(a[..last], i, x);
      assert a[i := x][..last] == a[..last][i := x];
    }
  }

  lemma ChosenSum(rs: seq<int>, cells: seq<(int, int)>)
    requires Chosen(rs, cells) && |rs| == |cells|
    ensures Sum(Lows(cells)) <= Sum(rs) <= Sum(Highs(cells))
  {
    SumMono(Lows(cells), rs);
    SumMono(rs, Highs(cells));
  }

  /** The rounded weights of a list in one coordinate. */
  ghost function WeightSum(rs: seq<int>, coordinate: int, d: Domain): int
    requires coordinate * d.q > 0
  {
    if |rs| == 0 then 0 else WeightSum(rs[..|rs| - 1], coordinate, d) + RoundWeight(rs[|rs| - 1], coordinate, d)
  }

  lemma {:induction false} ChosenWeights(rs: seq<int>, t: nat, d: Domain)
    requires Odd(d) && d.first * d.q > 0 && d.second * d.q > 0 && Chosen(rs, Cells(t, d))
    ensures WeightSum(rs, d.first, d) == ShareSum(t, d.size, |rs|) == WeightSum(rs, d.second, d)
    ensures forall i :: 0 <= i < |rs| ==> Abs(rs[i]) <= d.q / 2
  {
    if |rs| > 0 {
      var last := |rs| - 1;
      ChosenWeights(rs[..last], t, d);
      CellExact(rs[last], Share(t, d.size, last), d);
      assert forall i :: 0 <= i < last ==> rs[..last][i] == rs[i];
    }
  }

  function Negated(rs: seq<int>): (r: seq<int>)
    ensures |r| == |rs|
  {
    seq(|rs|, i requires 0 <= i < |rs| => -rs[i])
  }

  lemma WeightNegated(r: int, coordinate: int, d: Domain)
    requires coordinate * d.q > 0 && (coordinate * d.q) % 2 == 1
    ensures RoundWeight(-r, coordinate, d) == -RoundWeight(r, coordinate, d)
  {
    WeightOdd(r, coordinate * d.q, d.scale);
  }

  lemma {:induction false} NegatedSums(rs: seq<int>, coordinate: int, d: Domain)
    requires coordinate * d.q > 0 && (coordinate * d.q) % 2 == 1
    ensures Sum(Negated(rs)) == -Sum(rs) && WeightSum(Negated(rs), coordinate, d) == -WeightSum(rs, coordinate, d)
  {
    if |rs| > 0 {
      var last := |rs| - 1;
      NegatedSums(rs[..last], coordinate, d);
      assert Negated(rs)[..last] == Negated(rs[..last]);
      WeightNegated(rs[last], coordinate, d);
    }
  }

  /** A list of residuals with rounded total t in both coordinates and lift k. */
  ghost predicate Witnesses(rs: seq<int>, t: int, k: int, denominator: int, d: Domain)
    requires d.first * d.q > 0 && d.second * d.q > 0 && denominator > 0
  {
    && |rs| == d.size && (forall i :: 0 <= i < |rs| ==> Abs(rs[i]) <= d.q / 2)
    && WeightSum(rs, d.first, d) == t && WeightSum(rs, d.second, d) == t
    && Abs(Sum(rs) - d.q * k) <= d.q / denominator
  }

  predicate SignsAgree(t: int, k: int)
  {
    t * k >= 0 && (t == 0 ==> k == 0)
  }

  /** Some choice from the even cells comes close enough to the lift. */
  ghost predicate Reachable(t: nat, lift: int, denominator: int, d: Domain)
    requires d.scale > 0 && d.size >= 1 && denominator > 0
  {
    exists rs: seq<int> :: |rs| == d.size && Chosen(rs, Cells(t, d)) && Abs(Sum(rs) - lift) <= d.q / denominator
  }

  /** No choice from the even cells comes closer to the lift than the gap. */
  ghost predicate Closest(gap: int, t: nat, lift: int, d: Domain)
    requires d.scale > 0 && d.size >= 1
  {
    forall rs: seq<int> :: |rs| == d.size && Chosen(rs, Cells(t, d)) ==> Abs(gap) <= Abs(Sum(rs) - lift)
  }

  /** The total width of the first n cells. */
  function Width(cells: seq<(int, int)>, n: nat): int
    requires n <= |cells|
  {
    if n == 0 then 0 else Width(cells, n - 1) + (cells[n - 1].1 - cells[n - 1].0)
  }

  lemma {:induction false} WidthMono(cells: seq<(int, int)>, i: nat, n: nat)
    requires Proper(cells) && i <= n <= |cells|
    ensures Width(cells, i) <= Width(cells, n)
  {
    if i < n {
      WidthMono(cells, i, n - 1);
    }
  }

  lemma {:induction false} WidthSums(cells: seq<(int, int)>, n: nat)
    requires n <= |cells|
    ensures Width(cells, n) == Sum(Highs(cells)[..n]) - Sum(Lows(cells)[..n])
  {
    if n > 0 {
      WidthSums(cells, n - 1);
      assert Highs(cells)[..n][..n - 1] == Highs(cells)[..n - 1] && Lows(cells)[..n][..n - 1] == Lows(cells)[..n - 1];
    }
  }

  lemma Raise(cells: seq<(int, int)>, rs: seq<int>, i: nat, take: int)
    requires Chosen(rs, cells) && |rs| == |cells| && i < |cells| && rs[i] == cells[i].0
    requires 0 <= take <= cells[i].1 - cells[i].0
    ensures var next := rs[i := rs[i] + take]; Chosen(next, cells) && Sum(next) == Sum(rs) + take
  {
    SumUpdate(rs, i, rs[i] + take);
  }

  /** The first i positions are filled, the rest still at their low ends, and the rest can hold what is missing. */
  ghost predicate FillState(cells: seq<(int, int)>, rs: seq<int>, i: nat, extra: int, target: int)
  {
    && |rs| == |cells| && i <= |cells| && Chosen(rs, cells) && Sum(rs) + extra == target
    && (forall k :: i <= k < |cells| ==> rs[k] == cells[k].0)
    && 0 <= extra <= Width(cells, |cells|) - Width(cells, i)
  }

  /** One position of the greedy filling. */
  lemma FillStep(cells: seq<(int, int)>, rs: seq<int>, i: nat, extra: int, target: int, take: int)
    requires Proper(cells) && i < |cells| && FillState(cells, rs, i, extra, target) && take == Min(extra, cells[i].1 - cells[i].0)
    ensures FillState(cells, rs[i := rs[i] + take], i + 1, extra - take, target)
  {
    WidthMono(cells, i + 1, |cells|);
    assert cells[i].0 <= cells[i].1;
    Raise(cells, rs, i, take);
  }

  lemma FillStart(cells: seq<(int, int)>, target: int)
    requires Proper(cells) && Sum(Lows(cells)) <= target <= Sum(Highs(cells))
    ensures FillState(cells, Lows(cells), 0, target - Sum(Lows(cells)), target)
  {
    WidthSums(cells, |cells|);
    assert Highs(cells)[..|cells|] == Highs(cells) && Lows(cells)[..|cells|] == Lows(cells);
  }

  /** Greedily raising the low ends, in place, by the missing amount: nothing is left over. */
  method Fill(cells: seq<(int, int)>, target: int) returns (residuals: seq<int>)
    requires Proper(cells) && Sum(Lows(cells)) <= target <= Sum(Highs(cells))
    ensures |residuals| == |cells| && Chosen(residuals, cells) && Sum(residuals) == target
  {
    residuals := Lows(cells);
    var extra := target - Sum(residuals);
    FillStart(cells, target);
    for i := 0 to |cells|
      invariant FillState(cells, residuals, i, extra, target)
    {
      var take := Min(extra, cells[i].1 - cells[i].0);
      FillStep(cells, residuals, i, extra, target, take);
      residuals := residuals[i := residuals[i] + take];
      extra := extra - take;
    }
  }

  /**
   The search. It answers exactly when the signs agree and some choice of residuals from
   the even cells comes within the phase cap of the lift, and its answer is a witness:
   every internal check of the search holds.
   */
  method Witness(t: int, k: int, denominator: int, d: Domain) returns (result: Option<seq<int>>)
    requires Odd(d) && denominator > 0
    ensures d.first * d.q > 0 && d.second * d.q > 0
    ensures result.Some? <==> SignsAgree(t, k) && Reachable(Abs(t), d.q * Abs(k), denominator, d)
    ensures result.Some? ==> Witnesses(result.value, t, k, denominator, d) && Closest(Sum(result.value) - d.q * k, Abs(t), d.q * Abs(k), d)
  {
    CoordinatesPositive(d);
    if !SignsAgree(t, k) {
      return None;
    }
    var found := SearchCells(Abs(t), d.q * Abs(k), denominator, d);
    if found.None? {
      return None;
    }
    SearchFinds(found.value, t, k, denominator, d);
    return Some(if t >= 0 then found.value else Negated(found.value));
  }

  /** The search over the even cells of a total: the choice closest to the lift, when it is close enough. */
  method SearchCells(m: nat, lift: int, denominator: int, d: Domain) returns (result: Option<seq<int>>)
    requires Odd(d) && denominator > 0
    ensures result.Some? <==> Reachable(m, lift, denominator, d)
    ensures result.Some? ==> |result.value| == d.size && Chosen(result.value, Cells(m, d))
    ensures result.Some? ==> Abs(Sum(result.value) - lift) <= d.q / denominator && Closest(Sum(result.value) - lift, m, lift, d)
  {
    var cells := Cells(m, d);
    if !Proper(cells) {
      EmptyCell(m, lift, denominator, d);
      return None;
    }
    var low, high := Sum(Lows(cells)), Sum(Highs(cells));
    SumMono(Lows(cells), Highs(cells));
    var target := Min(Max(lift, low), high);
    if Abs(target - lift) > d.q / denominator {
      TooFar(m, lift, denominator, d);
      return None;
    }
    var residuals := Fill(cells, target);
    ClampClosest(m, lift, d);
    return Some(residuals);
  }

  lemma EmptyCell(m: nat, lift: int, denominator: int, d: Domain)
    requires Odd(d) && denominator > 0 && !Proper(Cells(m, d))
    ensures !Reachable(m, lift, denominator, d)
  {
    var cells := Cells(m, d);
    forall rs: seq<int> | |rs| == d.size
      ensures !Chosen(rs, cells)
    {
      var i :| 0 <= i < |cells| && cells[i].0 > cells[i].1;
      assert !(cells[i].0 <= rs[i] <= cells[i].1);
    }
  }

  /** The clamped target is the closest sum there is. */
  lemma TooFar(m: nat, lift: int, denominator: int, d: Domain)
    requires Odd(d) && denominator > 0
    requires var low, high := Sum(Lows(Cells(m, d))), Sum(Highs(Cells(m, d)));
             low <= high && Abs(Min(Max(lift, low), high) - lift) > d.q / denominator
    ensures !Reachable(m, lift, denominator, d)
  {
    forall rs: seq<int> | |rs| == d.size && Chosen(rs, Cells(m, d))
      ensures Abs(Sum(rs) - lift) > d.q / denominator
    {
      ChosenSum(rs, Cells(m, d));
    }
  }

  /** Clamping the lift between the extreme sums leaves the least gap. */
  lemma ClampClosest(m: nat, lift: int, d: Domain)
    requires Odd(d) && Sum(Lows(Cells(m, d))) <= Sum(Highs(Cells(m, d)))
    ensures Closest(Min(Max(lift, Sum(Lows(Cells(m, d)))), Sum(Highs(Cells(m, d)))) - lift, m, lift, d)
  {
    forall rs: seq<int> | |rs| == d.size && Chosen(rs, Cells(m, d))
      ensures Abs(Min(Max(lift, Sum(Lows(Cells(m, d)))), Sum(Highs(Cells(m, d)))) - lift) <= Abs(Sum(rs) - lift)
    {
      ChosenSum(rs, Cells(m, d));
    }
  }

  lemma SearchFinds(rs: seq<int>, t: int, k: int, denominator: int, d: Domain)
    requires Odd(d) && denominator > 0 && d.first * d.q > 0 && d.second * d.q > 0 && SignsAgree(t, k)
    requires |rs| == d.size && Chosen(rs, Cells(Abs(t), d)) && Abs(Sum(rs) - d.q * Abs(k)) <= d.q / denominator
    requires Closest(Sum(rs) - d.q * Abs(k), Abs(t), d.q * Abs(k), d)
    ensures Witnesses(if t >= 0 then rs else Negated(rs), t, k, denominator, d)
    ensures Closest(Sum(if t >= 0 then rs else Negated(rs)) - d.q * k, Abs(t), d.q * Abs(k), d)
  {
    SignedSums(rs, t, d);
    LiftClose(Sum(rs), t, k, Abs(k), d.q, d.q / denominator);
    SameGap(Sum(rs) - d.q * Abs(k), Sum(if t >= 0 then rs else Negated(rs)) - d.q * k, Abs(t), d.q * Abs(k), d);
  }

  lemma SignedSums(rs: seq<int>, t: int, d: Domain)
    requires Odd(d) && d.first * d.q > 0 && d.second * d.q > 0 && |rs| == d.size && Chosen(rs, Cells(Abs(t), d))
    ensures var signed := if t >= 0 then rs else Negated(rs);
            && Sum(signed) == (if t >= 0 then Sum(rs) else -Sum(rs))
            && WeightSum(signed, d.first, d) == t && WeightSum(signed, d.second, d) == t
            && forall i :: 0 <= i < |signed| ==> Abs(signed[i]) <= d.q / 2
  {
    CoordinatesPositive(d);
    ChosenWeights(rs, Abs(t), d);
    ShareTotal(Abs(t), d.size);
    NegatedSums(rs, d.first, d);
    NegatedSums(rs, d.second, d);
  }

  lemma SameGap(gap: int, other: int, m: nat, lift: int, d: Domain)
    requires d.scale > 0 && d.size >= 1 && Abs(gap) == Abs(other) && Closest(gap, m, lift, d)
    ensures Closest(other, m, lift, d)
  {
  }

  lemma LiftClose(total: int, t: int, k: int, a: int, q: int, cap: int)
    requires SignsAgree(t, k) && a == Abs(k) && Abs(total - q * a) <= cap
    ensures Abs((if t >= 0 then total else -total) - q * k) == Abs(total - q * a) <= cap
  {
    SignOfLift(t, k);
    if t < 0 {
      DistributeSub(q, 0, a);
    }
  }

  lemma SignOfLift(t: int, k: int)
    requires SignsAgree(t, k)
    ensures t >= 0 ==> k == Abs(k)
    ensures t < 0 ==> k == -(Abs(k) as int)
  {
    if t > 0 && k < 0 {
      MulMono(k, -1, t);
    }
    if t < 0 && k > 0 {
      MulMono(t, -1, k);
    }
  }

  // ------------------------------------------------ what a refusal rules out

  /** A rounded weight confines its residual to one half-open cell. */
  lemma WeightCell(r: int, coordinate: int, d: Domain)
    requires coordinate * d.q > 0
    ensures var w, a := coordinate * d.q, RoundWeight(r, coordinate, d);
            w * (2 * a - 1) <= 2 * d.scale * r < w * (2 * a + 1)
  {
    CellOfQuotient(2 * d.scale * r, coordinate * d.q);
  }

  lemma CellOfQuotient(y: int, w: int)
    requires w > 0
    ensures var a := (y + w) / (2 * w); w * (2 * a - 1) <= y < w * (2 * a + 1)
  {
    var a := (y + w) / (2 * w);
    assert y + w == (2 * w) * a + (y + w) % (2 * w);
    Assoc(w, 2, a);
    DistributeSub(w, 2 * a, 1);
    Distribute(w, 2 * a, 1);
  }

  /** Rounding moves the total of a list by at most half a unit per residual. */
  lemma {:induction false} TotalCell(rs: seq<int>, coordinate: int, d: Domain)
    requires coordinate * d.q > 0
    ensures var w, t, n := coordinate * d.q, WeightSum(rs, coordinate, d), |rs|;
            w * (2 * t - n) <= 2 * d.scale * Sum(rs) <= w * (2 * t + n)
  {
    if |rs| > 0 {
      var last := |rs| - 1;
      TotalCell(rs[..last], coordinate, d);
      WeightCell(rs[last], coordinate, d);
      var w, t, a := coordinate * d.q, WeightSum(rs[..last], coordinate, d), RoundWeight(rs[last], coordinate, d);
      Distribute(w, 2 * t - last, 2 * a - 1);
      Distribute(w, 2 * t + last, 2 * a + 1);
      Distribute(2 * d.scale, Sum(rs[..last]), rs[last]);
    }
  }

  /**
   Refusing opposite signs is exact, for every list and not only for even ones, when
   the scale exceeds first*size: no list at all has such a total and lift.
   */
  lemma SignsNecessary(rs: seq<int>, t: int, k: int, denominator: int, d: Domain)
    requires Odd(d) && denominator >= 2 && d.first * d.size < d.scale
    requires d.first * d.q > 0 && d.second * d.q > 0 && Witnesses(rs, t, k, denominator, d)
    ensures SignsAgree(t, k)
  {
    TotalCell(rs, d.first, d);
    var g := Sum(rs) - d.q * k;
    HalfCap(d.q, denominator);
    if t >= 0 && k < 0 {
      OppositeSigns(d.q, d.scale, d.first, d.size, t, k, Sum(rs));
    } else if t <= 0 && k > 0 {
      Flip(d.first * d.q, 2 * t, d.size);
      DistributeSub(2 * d.scale, 0, Sum(rs));
      DistributeSub(d.q, 0, k);
      OppositeSigns(d.q, d.scale, d.first, d.size, -t, -k, -Sum(rs));
    }
    ProductSign(t, k);
  }

  lemma Flip(w: int, t: int, n: int)
    ensures w * (-t - n) == -(w * (t + n))
  {
  }

  lemma HalfCap(q: int, denominator: int)
    requires q > 0 && denominator >= 2
    ensures 2 * (q / denominator) <= q
  {
    DivNonNegative(q, denominator);
    MulMono(2, denominator, q / denominator);
  }

  lemma ProductSign(t: int, k: int)
    requires !(t >= 0 && k < 0) && !(t <= 0 && k > 0)
    ensures SignsAgree(t, k)
  {
    if t >= 0 {
      MulNonNegative(t, k);
    } else {
      MulNonNegative(-t, -k);
    }
  }

  /** A nonnegative total cannot come within half a modulus of a negative lift. */
  lemma OppositeSigns(q: int, scale: int, first: int, size: int, t: int, k: int, total: int)
    requires q > 0 && scale > 0 && first > 0 && size >= 1 && first * size < scale && t >= 0 && k < 0
    requires (first * q) * (2 * t - size) <= 2 * scale * total
    ensures 2 * (total - q * k) > q
  {
    MulNonNegative(first, q);
    MulNonNegative(first, size);
    FirstTimes(first, q, size);
    TotalAbove(first * q, first * size, q, scale, size, t, total);
    MulMono(k, -1, q);
  }

  /** A nonnegative total keeps the doubled sum above -q. */
  lemma TotalAbove(w: int, s: int, q: int, scale: int, size: int, t: int, total: int)
    requires q > 0 && scale > s && s >= 0 && w >= 0 && w * size == q * s && t >= 0
    requires w * (2 * t - size) <= 2 * scale * total
    ensures 2 * total > -q
  {
    MulMono(-size, 2 * t - size, w);
    DistributeSub(w, 0, size);
    MulMono(s + 1, scale, q);
    Distribute(q, s, 1);
    DistributeSub(scale, 0, q);
    Assoc(scale, 2, total);
    CancelLess(scale, -q, 2 * total);
  }

  lemma FirstTimes(first: int, q: int, size: int)
    ensures (first * q) * size == q * (first * size)
  {
    Exchange(q, first, size);
    Assoc(first, q, size);
  }

  /** Without that condition a refusal says nothing about other lists. */
  lemma OtherListExists()
    ensures var d := Domain(33, 1, 1, 1, 3);
            Odd(d) && !SignsAgree(0, 1) && Witnesses([16, 16, 0], 0, 1, 16, d)
  {
    var d := Domain(33, 1, 1, 1, 3);
    var rs := [16, 16, 0];
    assert rs[..2] == [16, 16] && [16, 16][..1] == [16] && [16][..0] == [];
    assert WeightSum([16], 1, d) == 0 && WeightSum([16, 16], 1, d) == 0 && WeightSum(rs, 1, d) == 0;
    assert Sum([16]) == 16 && Sum([16, 16]) == 32 && Sum(rs) == 32;
  }
}
