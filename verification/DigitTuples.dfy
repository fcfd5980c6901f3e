/**
 What the digit-sum counts of CarryChain count: sets of digit tuples.
 */
module DigitTuples {
  import opened Arith
  import opened CarryChain

  /** A tuple of n digits below base. */
  predicate IsTuple(d: seq<int>, n: nat, base: nat)
  {
    |d| == n && forall i :: 0 <= i < n ==> 0 <= d[i] < base
  }

  /** All tuples of n digits; see TuplesExact. */
  ghost function Tuples(n: nat, base: nat): set<seq<int>>
  {
    if n == 0 then {[]} else set d, x | d in Tuples(n - 1, base) && 0 <= x < base :: d + [x]
  }

  lemma {:induction false} TuplesExact(n: nat, base: nat)
    ensures forall d :: d in Tuples(n, base) <==> IsTuple(d, n, base)
  {
    if n > 0 {
      TuplesExact(n - 1, base);
      forall d | IsTuple(d, n, base)
        ensures d in Tuples(n, base)
      {
        assert IsTuple(d[..n - 1], n - 1, base);
        assert d == d[..n - 1] + [d[n - 1]];
      }
    }
  }

  /** The tuples whose sum is one of the c totals from lo on. */
  ghost function Within(n: nat, base: nat, lo: int, c: nat): set<seq<int>>
  {
    set d | d in Tuples(n, base) && lo <= Sum(d) < lo + c
  }

  ghost function WithSum(n: nat, base: nat, s: int): set<seq<int>>
  {
    set d | d in Tuples(n, base) && Sum(d) == s
  }

  /** The tuples that, with carry i in, carry j out. */
  ghost function Carrying(n: nat, base: nat, i: nat, j: nat): set<seq<int>>
    requires base > 0
  {
    set d | d in Tuples(n, base) && (Sum(d) + i) / base == j
  }

  /** Appending the digit that completes the sum to s. */
  ghost function Completed(a: set<seq<int>>, s: int): set<seq<int>>
  {
    set d | d in a :: d + [s - Sum(d)]
  }

  lemma SumSnoc(d: seq<int>, x: int)
    ensures Sum(d + [x]) == Sum(d) + x
  {
    assert (d + [x])[..|d|] == d;
  }

  lemma {:induction false} CompletedSize(a: set<seq<int>>, s: int)
    ensures |Completed(a, s)| == |a|
    decreases |a|
  {
    if a != {} {
      var d :| d in a;
      var rest := a - {d};
      CompletedSize(rest, s);
      forall e | e in rest
        ensures e + [s - Sum(e)] != d + [s - Sum(d)]
      {
        assert (e + [s - Sum(e)])[..|e|] == e && (d + [s - Sum(d)])[..|d|] == d;
      }
      assert Completed(a, s) == Completed(rest, s) + {d + [s - Sum(d)]};
      assert d + [s - Sum(d)] !in Completed(rest, s);
    } else {
      assert Completed(a, s) == {};
    }
  }

  /** A tuple of n + 1 digits with sum s is a tuple of n digits completed by its last digit. */
  lemma LastDigit(n: nat, base: nat, s: int)
    ensures Within(n + 1, base, s, 1) == Completed(Within(n, base, s - base + 1, base), s)
  {
    TuplesExact(n, base);
    TuplesExact(n + 1, base);
    var all, shorter := Within(n + 1, base, s, 1), Within(n, base, s - base + 1, base);
    forall d | d in all
      ensures d in Completed(shorter, s)
    {
      var u, x := d[..n], d[n];
      assert d == u + [x];
      SumSnoc(u, x);
      assert IsTuple(u, n, base) && u in shorter;
    }
    forall d | d in Completed(shorter, s)
      ensures d in all
    {
      var u :| u in shorter && d == u + [s - Sum(u)];
      SumSnoc(u, s - Sum(u));
      assert IsTuple(d, n + 1, base);
    }
  }

  /** Count(n, base, s) is the number of n-digit tuples with sum s. */
  lemma {:induction false} CountTuples(n: nat, base: nat, s: int)
    ensures |WithSum(n, base, s)| == Count(n, base, s)
    decreases n, 0
  {
    if n == 0 {
      assert Sum([]) == 0;
      assert WithSum(n, base, s) == if s == 0 then {[]} else {};
    } else {
      var shorter := Within(n - 1, base, s - base + 1, base);
      RangeTuples(n - 1, base, s - base + 1, base);
      LastDigit(n - 1, base, s);
      CompletedSize(shorter, s);
      assert WithSum(n, base, s) == Completed(shorter, s);
    }
  }

  lemma {:induction false} RangeTuples(n: nat, base: nat, lo: int, c: nat)
    ensures |Within(n, base, lo, c)| == Range(n, base, lo, c)
    decreases n, c + 1
  {
    if c == 0 {
      assert Within(n, base, lo, c) == {};
    } else {
      RangeTuples(n, base, lo, c - 1);
      CountTuples(n, base, lo + (c - 1));
      WithinGrows(n, base, lo, c - 1);
    }
  }

  lemma WithinGrows(n: nat, base: nat, lo: int, c: nat)
    ensures |Within(n, base, lo, c + 1)| == |Within(n, base, lo, c)| + |WithSum(n, base, lo + c)|
  {
    var low, top := Within(n, base, lo, c), WithSum(n, base, lo + c);
    assert Within(n, base, lo, c + 1) == low + top;
    assert low !! top;
  }

  /** Transition(n, base, i, j) is the number of digit tuples that, with carry i in, carry j out. */
  lemma TransitionTuples(n: nat, base: nat, i: nat, j: nat)
    requires base > 0
    ensures |Carrying(n, base, i, j)| == Transition(n, base, i, j)
  {
    var lo := j * base - i;
    forall d | d in Tuples(n, base)
      ensures (Sum(d) + i) / base == j <==> lo <= Sum(d) < lo + base
    {
      InBlock(Sum(d) + i, base, j);
    }
    assert Carrying(n, base, i, j) == Within(n, base, lo, base);
    RangeTuples(n, base, lo, base);
  }
}
