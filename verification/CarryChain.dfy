/**
 The carry chain of adding n numbers in a base: the sliding-window count of digit
 sums, the transition matrix, and the Eulerian row that is stationary for it.
 */
module CarryChain {
  import opened Arith
  import opened Vectors
  import opened Series
  import opened SeriesRecurrence

  // ------------------------------------------------------------------ digit sums

  /** The number of ways to write s as a sum of n digits below base. */
  function Count(n: nat, base: nat, s: int): nat
    decreases n, 0
  {
    if n == 0 then (if s == 0 then 1 else 0) else Range(n - 1, base, s - base + 1, base)
  }

  /** The digit-sum counts of the c totals from lo on. */
  function Range(n: nat, base: nat, lo: int, c: nat): nat
    decreases n, c + 1
  {
    if c == 0 then 0 else Range(n, base, lo, c - 1) + Count(n, base, lo + (c - 1))
  }

  lemma {:induction false} RangeFront(n: nat, base: nat, lo: int, c: nat)
    requires c > 0
    ensures Range(n, base, lo, c) == Count(n, base, lo) + Range(n, base, lo + 1, c - 1)
  {
    if c > 1 {
      RangeFront(n, base, lo, c - 1);
      assert lo + 1 + (c - 2) == lo + (c - 1);
    }
  }

  /** Moving the window by one: the new entry enters and the old one leaves. */
  lemma CountStep(n: nat, base: nat, s: int)
    requires base > 0
    ensures Count(n + 1, base, s) == Count(n + 1, base, s - 1) + Count(n, base, s) - Count(n, base, s - base)
  {
    RangeFront(n, base, s - base, base);
    assert s - base + 1 + (base - 1) == s;
  }

  lemma {:induction false} CountOutside(n: nat, base: nat, s: int)
    requires base > 0 && (s < 0 || s > n * (base - 1))
    ensures Count(n, base, s) == 0
    decreases n, 0
  {
    if n > 0 {
      DistributeSub(base - 1, n, 1);
      RangeOutside(n - 1, base, s - base + 1, base);
    }
  }

  lemma {:induction false} RangeOutside(n: nat, base: nat, lo: int, c: nat)
    requires base > 0 && (lo + c <= 0 || lo > n * (base - 1))
    ensures Range(n, base, lo, c) == 0
    decreases n, c + 1
  {
    if c > 0 {
      RangeOutside(n, base, lo, c - 1);
      CountOutside(n, base, lo + (c - 1));
    }
  }

  lemma {:induction false} RangeAppend(n: nat, base: nat, lo: int, c: nat, d: nat)
    ensures Range(n, base, lo, c + d) == Range(n, base, lo, c) + Range(n, base, lo + c, d)
  {
    if d > 0 {
      RangeAppend(n, base, lo, c, d - 1);
      assert lo + (c + d - 1) == lo + c + (d - 1);
    }
  }

  /** Digit sums are symmetric about half the largest sum. */
  lemma {:induction false} CountSymmetric(n: nat, base: nat, s: int, t: int)
    requires base > 0 && s + t == n * (base - 1)
    ensures Count(n, base, s) == Count(n, base, t)
    decreases n, 0
  {
    if n > 0 {
      DistributeSub(base - 1, n, 1);
      RangeSymmetric(n - 1, base, s - base + 1, t - base + 1, base);
    }
  }

  lemma {:induction false} RangeSymmetric(n: nat, base: nat, lo: int, hi: int, c: nat)
    requires base > 0 && lo + hi + (c - 1) == n * (base - 1)
    ensures Range(n, base, lo, c) == Range(n, base, hi, c)
    decreases n, c + 1
  {
    if c > 0 {
      RangeFront(n, base, hi, c);
      RangeSymmetric(n, base, lo, hi + 1, c - 1);
      CountSymmetric(n, base, lo + (c - 1), hi);
    }
  }

  /** The running window over the previous counts, one list per summand. */
  method SumCounts(n: nat, base: nat) returns (counts: seq<int>)
    requires base >= 1
    ensures |counts| == n * (base - 1) + 1
    ensures forall s :: 0 <= s < |counts| ==> counts[s] == Count(n, base, s)
  {
    counts := [1];
    for k := 0 to n
      invariant |counts| == k * (base - 1) + 1
      invariant forall s :: 0 <= s < |counts| ==> counts[s] == Count(k, base, s)
    {
      Distribute(base - 1, k, 1);
      counts := NextCounts(counts, k, base);
    }
  }

  method NextCounts(counts: seq<int>, ghost k: nat, base: nat) returns (next: seq<int>)
    requires base >= 1 && |counts| == k * (base - 1) + 1
    requires forall s :: 0 <= s < |counts| ==> counts[s] == Count(k, base, s)
    ensures |next| == |counts| + base - 1
    ensures forall s :: 0 <= s < |next| ==> next[s] == Count(k + 1, base, s)
  {
    next := [];
    var window := 0;
    Distribute(base - 1, k, 1);
    CountOutside(k + 1, base, -1);
    for total := 0 to |counts| + base - 1
      invariant |next| == total && window == Count(k + 1, base, total - 1)
      invariant forall s :: 0 <= s < total ==> next[s] == Count(k + 1, base, s)
    {
      CountStep(k, base, total);
      if total < |counts| {
        window := window + counts[total];
      } else {
        CountOutside(k, base, total);
      }
      if 0 <= total - base < |counts| {
        window := window - counts[total - base];
      } else {
        CountOutside(k, base, total - base);
      }
      next := next + [window];
    }
  }

  // ----------------------------------------------------------------- transitions

  /** The number of digit tuples that take carry i to carry j. */
  function Transition(n: nat, base: nat, i: nat, j: nat): nat
  {
    Range(n, base, j * base - i, base)
  }

  /** Summing one more digit: a transition count is a digit-sum count. */
  lemma TransitionIsCount(n: nat, base: nat, i: nat, j: nat)
    requires base > 0
    ensures Transition(n, base, i, j) == Count(n + 1, base, (j + 1) * base - 1 - i)
  {
    Distribute(base, j, 1);
  }

  /** Row i, column j after the totals below t have been added. */
  function Clamp(x: int, hi: nat): nat
  {
    if x < 0 then 0 else if x > hi then hi else x
  }

  lemma PartialStep(n: nat, base: nat, i: nat, j: nat, t: nat)
    requires base > 0
    ensures var lo := j * base - i;
            Range(n, base, lo, Clamp(t + 1 - lo, base))
            == Range(n, base, lo, Clamp(t - lo, base)) + (if (i + t) / base == j then Count(n, base, t) else 0)
  {
    InBlock(i + t, base, j);
    PartialMove(n, base, j * base - i, t);
  }

  lemma PartialMove(n: nat, base: nat, lo: int, t: nat)
    ensures Range(n, base, lo, Clamp(t + 1 - lo, base))
         == Range(n, base, lo, Clamp(t - lo, base)) + (if lo <= t < lo + base then Count(n, base, t) else 0)
  {
    if lo <= t < lo + base {
      assert lo + (t - lo) == t;
    }
  }

  /** x / base is j on exactly one block. */
  lemma InBlock(x: int, base: int, j: int)
    requires base > 0
    ensures x / base == j <==> j * base <= x < j * base + base
  {
    assert x == base * (x / base) + x % base;
    if j * base <= x < j * base + base {
      DivModUnique(x, base, j, x - j * base);
    }
  }

  lemma PartialEnds(n: nat, base: nat, i: nat, j: nat)
    requires base > 0
    ensures var lo := j * base - i;
            && Range(n, base, lo, Clamp(0 - lo, base)) == 0
            && Range(n, base, lo, Clamp(n * (base - 1) + 1 - lo, base)) == Transition(n, base, i, j)
  {
    var lo, top := j * base - i, n * (base - 1) + 1;
    var c := Clamp(top - lo, base);
    if lo <= 0 {
      RangeOutside(n, base, lo, Clamp(0 - lo, base));
    }
    if c < base {
      RangeAppend(n, base, lo, c, base - c);
      RangeOutside(n, base, lo + c, base - c);
    }
  }

  /** Each total is added in place to the column of the carry it produces. */
  method TransitionCounts(n: nat, base: nat) returns (matrix: array2<int>)
    requires base >= 1
    ensures fresh(matrix) && matrix.Length0 == n && matrix.Length1 == n
    ensures forall i, j :: 0 <= i < n && 0 <= j < n ==> matrix[i, j] == Transition(n, base, i, j)
  {
    var counts := SumCounts(n, base);
    matrix := new int[n, n]((_, _) => 0);
    for carry := 0 to n
      invariant forall i, j :: 0 <= i < carry && 0 <= j < n ==> matrix[i, j] == Transition(n, base, i, j)
      invariant forall i, j :: carry <= i < n && 0 <= j < n ==> matrix[i, j] == 0
    {
      forall j: nat | j < n
        ensures Range(n, base, j * base - carry, Clamp(0 - (j * base - carry), base)) == 0
        ensures Range(n, base, j * base - carry, Clamp(|counts| - (j * base - carry), base)) == Transition(n, base, carry, j)
      {
        PartialEnds(n, base, carry, j);
      }
      for total := 0 to |counts|
        invariant forall i, j :: 0 <= i < n && 0 <= j < n && i != carry ==>
                    matrix[i, j] == if i < carry then Transition(n, base, i, j) else 0
        invariant forall j :: 0 <= j < n ==> matrix[carry, j] == RowPartial(n, base, carry, j, total)
      {
        forall j: nat | j < n
          ensures RowPartial(n, base, carry, j, total + 1)
               == RowPartial(n, base, carry, j, total) + (if (carry + total) / base == j then Count(n, base, total) else 0)
        {
          PartialStep(n, base, carry, j, total);
        }
        ColumnInRange(carry, total, n, base);
        var j := (carry + total) / base;
        matrix[carry, j] := matrix[carry, j] + counts[total];
      }
    }
  }

  function RowPartial(n: nat, base: nat, i: nat, j: nat, t: nat): nat
  {
    Range(n, base, j * base - i, Clamp(t - (j * base - i), base))
  }

  lemma ColumnInRange(carry: nat, total: nat, n: nat, base: nat)
    requires base > 0 && carry < n && total <= n * (base - 1)
    ensures 0 <= (carry + total) / base < n
  {
    DistributeSub(n, base, 1);
    var q := (carry + total) / base;
    if q >= n {
      MulMono(n, q, base);
    }
    if q < 0 {
      MulMono(q, -1, base);
    }
  }

  // --------------------------------------------------------------- Eulerian numbers

  /** A(n, j), by the recurrence the row is built with. */
  function Eulerian(n: nat, j: int): int
  {
    if j < 0 then 0
    else if n == 0 then (if j == 0 then 1 else 0)
    else (j + 1) * Eulerian(n - 1, j) + (n - j) * Eulerian(n - 1, j - 1)
  }

  lemma {:induction false} EulerianAbove(n: nat, j: int)
    requires j >= n && j > 0
    ensures Eulerian(n, j) == 0
  {
    if n > 0 {
      EulerianAbove(n - 1, j);
      if j > n {
        EulerianAbove(n - 1, j - 1);
      }
      assert (j + 1) * 0 == 0;
    }
  }

  function RowLength(n: nat): nat
  {
    if n == 0 then 1 else n
  }

  /** The first `length` Eulerian numbers of size n. */
  ghost predicate HoldsRow(row: seq<int>, n: nat, length: nat)
  {
    |row| == length && forall j :: 0 <= j < length ==> row[j] == Eulerian(n, j)
  }

  /** One entry of the next row. */
  function NextEntry(row: seq<int>, size: nat, j: nat): int
  {
    (j + 1) * (if j < |row| then row[j] else 0) + (size - j) * (if 0 < j <= |row| then row[j - 1] else 0)
  }

  lemma NextEntryCorrect(row: seq<int>, size: nat, j: nat)
    requires size >= 2 && HoldsRow(row, size - 1, size - 1) && j < size
    ensures NextEntry(row, size, j) == Eulerian(size, j)
  {
    EulerianAbove(size - 1, size - 1);
  }

  method EulerianRow(n: nat) returns (row: seq<int>)
    ensures HoldsRow(row, n, RowLength(n))
  {
    row := [1];
    FirstRow();
    for size := 2 to Max(n + 1, 2)
      invariant HoldsRow(row, size - 1, size - 1)
    {
      forall j: nat | j < size
        ensures NextEntry(row, size, j) == Eulerian(size, j)
      {
        NextEntryCorrect(row, size, j);
      }
      row := seq(size, j requires 0 <= j < size => NextEntry(row, size, j));
    }
  }

  lemma FirstRow()
    ensures HoldsRow([1], 1, 1) && HoldsRow([1], 0, 1)
  {
    assert Eulerian(0, 0) == 1 && Eulerian(0, -1) == 0;
    assert Eulerian(1, 0) == 1;
  }

  // ------------------------------------------------------------------ stationarity

  /** The powers (k + 1)^n as a truncated series. */
  function PowerSeries(n: nat, precision: nat): (r: Poly)
    ensures |r| == precision
  {
    seq(precision, k requires 0 <= k < precision => Pow(k + 1, n))
  }

  function EulerianSeries(n: nat, precision: nat): (r: Poly)
    ensures |r| == precision
  {
    seq(precision, k requires 0 <= k < precision => Eulerian(n, k))
  }

  function Unit(precision: nat): (r: Poly)
    ensures |r| == precision
  {
    seq(precision, k requires 0 <= k < precision => if k == 0 then 1 else 0)
  }

  /** The Eulerian row is (1 - z)^(n+1) times the series of n-th powers. */
  lemma {:induction false} EulerianIsDifference(n: nat, precision: nat)
    ensures Repeat(1, n + 1, PowerSeries(n, precision)) == EulerianSeries(n, precision)
  {
    var p := PowerSeries(n, precision);
    if n == 0 {
      assert Repeat(1, 1, p) == OneMinus(1, Repeat(1, 0, p)) == OneMinus(1, p);
    } else {
      var q, e := PowerSeries(n - 1, precision), EulerianSeries(n - 1, precision);
      EulerianIsDifference(n - 1, precision);
      assert p == Add(Theta(q), q) by {
        forall k | 0 <= k < precision
          ensures p[k] == Add(Theta(q), q)[k]
        {
          Distribute(Pow(k + 1, n - 1), k, 1);
        }
      }
      RepeatAdd(1, n + 1, Theta(q), q);
      ThetaRepeat(1, n, q);
      WeightValue(1, n);
      var l := Repeat(1, n + 1, Theta(q));
      assert Repeat(1, n + 1, q) == OneMinus(1, e);
      forall k | 0 <= k < precision
        ensures (l[k] + OneMinus(1, e)[k]) == Eulerian(n, k)
      {
        EulerianCoefficient(n, l, e, k);
      }
    }
  }

  lemma EulerianCoefficient(n: nat, l: Poly, e: Poly, k: nat)
    requires n > 0 && |l| == |e| && k < |e|
    requires e == EulerianSeries(n - 1, |e|)
    requires OneMinus(1, Theta(e)) == Add(l, Scale(-(n as int), Shift(1, e)))
    ensures l[k] + OneMinus(1, e)[k] == Eulerian(n, k)
  {
    var t, s := OneMinus(1, Theta(e)), Shift(1, e);
    ReadSum(l, t, -(n as int), s, k);
    EulerianAt(n, e, k);
    DistributeSub(s[k], 0, n);
  }

  lemma EulerianAt(n: nat, e: Poly, k: nat)
    requires n > 0 && k < |e| && e == EulerianSeries(n - 1, |e|)
    ensures OneMinus(1, Theta(e))[k] + n * Shift(1, e)[k] + OneMinus(1, e)[k] == Eulerian(n, k)
  {
    DifferenceOfTheta(e, k);
    var x, y := e[k], if k == 0 then 0 else e[k - 1];
    CollectEulerian(n, k, x, y);
    assert x == Eulerian(n - 1, k) && (k > 0 ==> y == Eulerian(n - 1, k - 1));
    EulerianSplit(n, k, x, y);
  }

  lemma EulerianSplit(n: nat, k: nat, x: int, y: int)
    requires n > 0 && x == Eulerian(n - 1, k) && y == if k == 0 then 0 else Eulerian(n - 1, k - 1)
    ensures Eulerian(n, k) == (k + 1) * x + (n - k) * y
  {
  }

  lemma DifferenceOfTheta(e: Poly, k: nat)
    requires k < |e|
    ensures OneMinus(1, Theta(e))[k] == k * e[k] - (if k == 0 then 0 else (k - 1) * e[k - 1])
    ensures OneMinus(1, e)[k] == e[k] - (if k == 0 then 0 else e[k - 1])
    ensures Shift(1, e)[k] == if k == 0 then 0 else e[k - 1]
  {
  }

  lemma CollectEulerian(n: int, k: int, x: int, y: int)
    ensures k * x - (k - 1) * y + n * y + (x - y) == (k + 1) * x + (n - k) * y
  {
    Distribute(x, k, 1);
    DistributeSub(y, n, k);
    DistributeSub(y, k, 1);
  }

  /** The digit-sum counts as a truncated series. */
  function CountSeries(n: nat, base: nat, precision: nat): (r: Poly)
    ensures |r| == precision
  {
    seq(precision, k requires 0 <= k < precision => Count(n, base, k))
  }

  lemma WindowIsQuotient(n: nat, base: nat, precision: nat)
    requires base > 0
    ensures OneMinus(1, CountSeries(n + 1, base, precision)) == OneMinus(base, CountSeries(n, base, precision))
  {
    forall k | 0 <= k < precision
      ensures OneMinus(1, CountSeries(n + 1, base, precision))[k] == OneMinus(base, CountSeries(n, base, precision))[k]
    {
      CountStep(n, base, k);
      if k == 0 {
        CountOutside(n + 1, base, -1);
      }
      if k < base {
        CountOutside(n, base, k - base);
      }
    }
  }

  /** (1 - z)^n times the counts of n digits is (1 - z^base)^n. */
  lemma {:induction false} CountQuotient(n: nat, base: nat, precision: nat)
    requires base > 0
    ensures Repeat(1, n, CountSeries(n, base, precision)) == Repeat(base, n, Unit(precision))
  {
    if n == 0 {
      assert CountSeries(0, base, precision) == Unit(precision);
    } else {
      var f := CountSeries(n - 1, base, precision);
      CountQuotient(n - 1, base, precision);
      WindowIsQuotient(n - 1, base, precision);
      RepeatOneMinus(1, n - 1, 1, CountSeries(n, base, precision));
      RepeatOneMinus(1, n - 1, base, f);
    }
  }

  // ----------------------------------------------- polynomial action on a series

  lemma {:induction false} ActOneMinus(p: Poly, j: nat, e: nat, f: Poly)
    requires j <= |p|
    ensures Act(p, j, OneMinus(e, f)) == OneMinus(e, Act(p, j, f))
  {
    if j > 0 {
      ActOneMinus(p, j - 1, e, f);
      OneMinusAdd(e, Act(p, j - 1, f), Scale(p[j - 1], Shift(j - 1, f)));
      OneMinusScale(e, p[j - 1], Shift(j - 1, f));
      OneMinusShift(e, j - 1, f);
    } else {
      assert OneMinus(e, Zero(|f|)) == Zero(|f|);
    }
  }

  lemma {:induction false} ApplyRepeat(p: Poly, e: nat, m: nat, f: Poly)
    ensures Apply(p, Repeat(e, m, f)) == Repeat(e, m, Apply(p, f))
  {
    if m > 0 {
      ApplyRepeat(p, e, m - 1, f);
      ActOneMinus(p, |p|, e, Repeat(e, m - 1, f));
    }
  }

  /** Coefficients beyond the precision act as nothing. */
  lemma {:induction false} ApplyCut(p: Poly, j: nat, f: Poly)
    requires |f| <= j <= |p|
    ensures Act(p, j, f) == Act(p, |f|, f)
  {
    if j > |f| {
      ApplyCut(p, j - 1, f);
      ShiftOut(j - 1, f);
      ZeroVector(Act(p, j - 1, f), p[j - 1]);
    }
  }

  lemma ZeroVector(a: Poly, c: int)
    ensures Add(a, Scale(c, Zero(|a|))) == a
  {
    assert c * 0 == 0;
  }

  /** Multiplying the polynomial or the series by 1 - z^e is the same. */
  lemma ApplyOneMinus(p: Poly, e: nat, f: Poly)
    requires |p| == |f|
    ensures Apply(OneMinus(e, p), f) == OneMinus(e, Apply(p, f))
  {
    var q := TimesPower(p, e);
    ApplyTimes(p, e, f);
    ApplyCut(q, |q|, f);
    assert q[..|f|] == OneMinus(e, p) by {
      forall k | 0 <= k < |f|
        ensures q[k] == OneMinus(e, p)[k]
      {
        assert (Zero(e) + p)[k] == if k < e then 0 else p[k - e];
        assert (p + Zero(e))[k] == p[k];
      }
    }
    assert q == q[..|f|] + q[|f|..];
    ActPrefix(q[..|f|], q[|f|..], |f|, f);
  }

  lemma {:induction false} ApplyRepeatLeft(p: Poly, e: nat, m: nat, f: Poly)
    requires |p| == |f|
    ensures Apply(Repeat(e, m, p), f) == Repeat(e, m, Apply(p, f))
  {
    if m > 0 {
      ApplyRepeatLeft(p, e, m - 1, f);
      ApplyOneMinus(Repeat(e, m - 1, p), e, f);
    }
  }

  lemma {:induction false} ActUnit(p: Poly, j: nat)
    requires j <= |p|
    ensures Act(p, j, Unit(|p|)) == p[..j] + Zero(|p| - j)
  {
    if j > 0 {
      ActUnit(p, j - 1);
      var u := Scale(p[j - 1], Shift(j - 1, Unit(|p|)));
      var before, after := p[..j - 1] + Zero(|p| - (j - 1)), p[..j] + Zero(|p| - j);
      assert Act(p, j, Unit(|p|)) == Add(before, u);
      forall k | 0 <= k < |p|
        ensures Add(before, u)[k] == after[k]
      {
        assert u[k] == if k == j - 1 then p[j - 1] else 0;
      }
    } else {
      assert p[..0] + Zero(|p|) == Zero(|p|);
    }
  }

  /** Weighting the counts by the Eulerian row leaves the plain powers. */
  lemma WeightedCounts(n: nat, base: nat, precision: nat)
    requires base > 0
    ensures Apply(EulerianSeries(n, precision), CountSeries(n + 1, base, precision))
         == Repeat(base, n + 1, PowerSeries(n, precision))
  {
    var p, f := PowerSeries(n, precision), CountSeries(n + 1, base, precision);
    EulerianIsDifference(n, precision);
    ApplyRepeatLeft(p, 1, n + 1, f);
    ApplyRepeat(p, 1, n + 1, f);
    CountQuotient(n + 1, base, precision);
    ApplyRepeat(p, base, n + 1, Unit(precision));
    ActUnit(p, precision);
    assert p[..precision] + Zero(0) == p;
  }

  // ------------------------------------------------------------------ decimation

  /** Every base-th coefficient: entries base - 1, 2*base - 1, ... */
  function Decimate(f: Poly, base: nat, m: nat): (r: Poly)
    requires base > 0 && m * base <= |f|
    ensures |r| == m
  {
    seq(m, j requires 0 <= j < m => f[Last(j, base, m, |f|)])
  }

  /** The index (j + 1)*base - 1. */
  function Last(j: nat, base: nat, m: nat, length: nat): (k: nat)
    requires base > 0 && j < m && m * base <= length
    ensures k == (j + 1) * base - 1 < length
  {
    MulMono(j + 1, m, base);
    MulMono(1, j + 1, base);
    (j + 1) * base - 1
  }

  lemma DecimateOneMinus(f: Poly, base: nat, m: nat)
    requires base > 0 && m * base <= |f|
    ensures Decimate(OneMinus(base, f), base, m) == OneMinus(1, Decimate(f, base, m))
  {
    forall j | 0 <= j < m
      ensures Decimate(OneMinus(base, f), base, m)[j] == OneMinus(1, Decimate(f, base, m))[j]
    {
      var k := Last(j, base, m, |f|);
      Distribute(base, j, 1);
      if j > 0 {
        assert k - base == Last(j - 1, base, m, |f|);
        MulMono(1, j, base);
      }
    }
  }

  lemma {:induction false} DecimateRepeat(f: Poly, base: nat, m: nat, r: nat)
    requires base > 0 && m * base <= |f|
    ensures Decimate(Repeat(base, r, f), base, m) == Repeat(1, r, Decimate(f, base, m))
  {
    if r > 0 {
      DecimateRepeat(f, base, m, r - 1);
      DecimateOneMinus(Repeat(base, r - 1, f), base, m);
    }
  }

  lemma {:induction false} PowProduct(x: int, y: int, n: nat)
    ensures Pow(x * y, n) == Pow(x, n) * Pow(y, n)
  {
    if n > 0 {
      PowProduct(x, y, n - 1);
      var a, b := Pow(x, n - 1), Pow(y, n - 1);
      Assoc(x, y, a * b);
      Exchange(y, a, b);
      Assoc(x, a, y * b);
    }
  }

  lemma DecimatePowers(n: nat, base: nat, m: nat, precision: nat)
    requires base > 0 && m * base <= precision
    ensures Decimate(PowerSeries(n, precision), base, m) == Scale(Pow(base, n), PowerSeries(n, m))
  {
    forall j | 0 <= j < m
      ensures Decimate(PowerSeries(n, precision), base, m)[j] == Scale(Pow(base, n), PowerSeries(n, m))[j]
    {
      var k := Last(j, base, m, precision);
      PowProduct(base, j + 1, n);
      assert base * (j + 1) == k + 1;
    }
  }

  /** The weighted number of tuples that lead to carry j. */
  function Inflow(n: nat, base: nat, j: nat, m: nat): int
  {
    if m == 0 then 0 else Inflow(n, base, j, m - 1) + Eulerian(n, m - 1) * Transition(n, base, m - 1, j)
  }

  /** Reading one coefficient of the weighted counts as a sum over carries. */
  lemma {:induction false} InflowAction(n: nat, base: nat, j: nat, m: nat, precision: nat)
    requires base > 0 && n * base <= precision && j < n && m <= precision
    ensures Act(EulerianSeries(n, precision), m, CountSeries(n + 1, base, precision))[Last(j, base, n, precision)]
         == Inflow(n, base, j, m)
  {
    var w, f, k := EulerianSeries(n, precision), CountSeries(n + 1, base, precision), Last(j, base, n, precision);
    if m > 0 {
      InflowAction(n, base, j, m - 1, precision);
      ReadSum(Act(w, m - 1, f), Act(w, m, f), w[m - 1], Shift(m - 1, f), k);
      TransitionIsCount(n, base, m - 1, j);
      if k < m - 1 {
        CountOutside(n + 1, base, k - (m - 1));
      }
    }
  }

  /** Carries at and beyond n have no weight. */
  lemma {:induction false} InflowEnds(n: nat, base: nat, j: nat, m: nat)
    requires 0 < n <= m
    ensures Inflow(n, base, j, m) == Inflow(n, base, j, n)
  {
    if m > n {
      InflowEnds(n, base, j, m - 1);
      EulerianAbove(n, m - 1);
    }
  }

  /** The Eulerian row is stationary: after one step every weight has grown by base^n. */
  lemma Stationary(n: nat, base: nat, j: nat)
    requires base > 0 && j < n
    ensures Inflow(n, base, j, n) == Pow(base, n) * Eulerian(n, j)
  {
    var precision := n * base;
    MulMono(1, base, n);
    var p := PowerSeries(n, precision);
    var k := Last(j, base, n, precision);
    InflowAction(n, base, j, precision, precision);
    InflowEnds(n, base, j, precision);
    WeightedCounts(n, base, precision);
    assert Repeat(base, n + 1, p)[k] == Decimate(Repeat(base, n + 1, p), base, n)[j];
    DecimateRepeat(p, base, n, n + 1);
    DecimatePowers(n, base, n, precision);
    RepeatScale(1, n + 1, Pow(base, n), PowerSeries(n, n));
    EulerianIsDifference(n, n);
  }

  // -------------------------------------------------------------------- row sums

  /** The counts of one more digit, summed over a range, are base shifted ranges. */
  function Spread(n: nat, base: nat, lo: int, c: nat, d: nat): int
  {
    if d == 0 then 0 else Spread(n, base, lo, c, d - 1) + Range(n, base, lo - base + 1 + (d - 1), c)
  }

  lemma {:induction false} SpreadZero(n: nat, base: nat, lo: int, d: nat)
    ensures Spread(n, base, lo, 0, d) == 0
  {
    if d > 0 {
      SpreadZero(n, base, lo, d - 1);
    }
  }

  lemma {:induction false} SpreadStep(n: nat, base: nat, lo: int, c: nat, d: nat)
    ensures Spread(n, base, lo, c + 1, d) == Spread(n, base, lo, c, d) + Range(n, base, lo + c - base + 1, d)
  {
    if d > 0 {
      SpreadStep(n, base, lo, c, d - 1);
      assert lo - base + 1 + (d - 1) + c == lo + c - base + 1 + (d - 1);
    }
  }

  lemma {:induction false} RangeIsSpread(n: nat, base: nat, lo: int, c: nat)
    ensures Range(n + 1, base, lo, c) == Spread(n, base, lo, c, base)
  {
    if c == 0 {
      SpreadZero(n, base, lo, base);
    } else {
      RangeIsSpread(n, base, lo, c - 1);
      SpreadStep(n, base, lo, c - 1, base);
    }
  }

  /** All digit tuples: a range that covers every sum counts base^n. */
  lemma {:induction false} RangeTotal(n: nat, base: nat, lo: int, c: nat)
    requires base > 0 && lo <= 0 && lo + c > n * (base - 1)
    ensures Range(n, base, lo, c) == Pow(base, n)
    decreases n, 0
  {
    if n == 0 {
      var a: nat := -lo;
      RangeAppend(0, base, lo, a, c - a);
      RangeOutside(0, base, lo, a);
      RangeFront(0, base, 0, c - a);
      RangeOutside(0, base, 1, c - a - 1);
    } else {
      DistributeSub(base - 1, n, 1);
      RangeIsSpread(n - 1, base, lo, c);
      SpreadTotal(n - 1, base, lo, c, base);
    }
  }

  lemma {:induction false} SpreadTotal(n: nat, base: nat, lo: int, c: nat, d: nat)
    requires base > 0 && d <= base && lo <= 0 && lo + c > (n + 1) * (base - 1)
    ensures Spread(n, base, lo, c, d) == d * Pow(base, n)
    decreases n, d + 1
  {
    if d > 0 {
      SpreadTotal(n, base, lo, c, d - 1);
      Distribute(base - 1, n, 1);
      RangeTotal(n, base, lo - base + 1 + (d - 1), c);
      DistributeSub(Pow(base, n), d, 1);
    }
  }

  function Outflow(n: nat, base: nat, i: nat, m: nat): int
  {
    if m == 0 then 0 else Outflow(n, base, i, m - 1) + Transition(n, base, i, m - 1)
  }

  lemma {:induction false} OutflowRange(n: nat, base: nat, i: nat, m: nat)
    requires base > 0
    ensures Outflow(n, base, i, m) == Range(n, base, -(i as int), m * base)
  {
    if m > 0 {
      OutflowRange(n, base, i, m - 1);
      DistributeSub(base, m, 1);
      MulMono(0, m - 1, base);
      RangeAppend(n, base, -(i as int), (m - 1) * base, base);
    }
  }

  /** Every row of the matrix counts all base^n digit tuples. */
  lemma RowMass(n: nat, base: nat, i: nat)
    requires base > 0 && i < n
    ensures Outflow(n, base, i, n) == Pow(base, n)
  {
    OutflowRange(n, base, i, n);
    DistributeSub(n, base, 1);
    MulMono(0, n, base);
    RangeTotal(n, base, -(i as int), n * base);
  }
}
