/**
 The negacyclic ring Z[X]/(X^n + 1). An element is its coefficient list of
 length n. `Rotate` multiplies by X, and `Mul` is Horner's rule in X: a product
 is a polynomial in the rotation acting on a vector, so every ring law follows
 from linearity. `MulIsConvolution` ties it to the convolution whose wrapped
 terms change sign, and `MulLoops` is the double loop the scripts run.
 */
module Negacyclic {
  import opened Arith
  import opened Vectors

  /** Multiplication by X: the top coefficient wraps and changes sign. */
  function Rotate(a: Poly): (r: Poly)
    ensures |r| == |a|
  {
    if |a| == 0 then a else [-a[|a| - 1]] + a[..|a| - 1]
  }

  /** Horner's rule in X, from the constant coefficient of a upwards. */
  function HornerRule(a: Poly, b: Poly): (r: Poly)
    ensures |r| == |b|
  {
    if |a| == 0 then Zero(|b|) else Add(Scale(a[0], b), Rotate(HornerRule(a[1..], b)))
  }

  ghost predicate IsMul(a: Poly, b: Poly, r: Poly)
  {
    |r| == |b| && forall t {:trigger Unfold(t)} :: Unfold(t) ==> r == HornerRule(a, b)
  }

  /**
   The polynomial a applied to the vector b through powers of X; the ring
   product when the lengths agree. It is Horner's rule, unfolded by MulSplit.
   */
  ghost function Mul(a: Poly, b: Poly): (r: Poly)
    ensures |r| == |b|
  {
    assert IsMul(a, b, HornerRule(a, b));
    var r :| IsMul(a, b, r);
    r
  }

  lemma MulIsHorner(a: Poly, b: Poly)
    ensures Mul(a, b) == HornerRule(a, b)
  {
    assert Unfold(0);
  }

  lemma MulNil(b: Poly)
    ensures Mul([], b) == Zero(|b|)
  {
    MulIsHorner([], b);
  }

  lemma MulCons(x: int, t: Poly, b: Poly)
    ensures Mul([x] + t, b) == Add(Scale(x, b), Rotate(Mul(t, b)))
  {
    MulIsHorner([x] + t, b);
    MulIsHorner(t, b);
    assert ([x] + t)[1..] == t;
  }

  /** The two cases of Mul on the shape of the acting polynomial. */
  lemma MulSplit(a: Poly, b: Poly)
    ensures |a| == 0 ==> Mul(a, b) == Zero(|b|)
    ensures |a| > 0 ==> Mul(a, b) == Add(Scale(a[0], b), Rotate(Mul(a[1..], b)))
  {
    if |a| == 0 {
      MulNil(b);
    } else {
      assert a == [a[0]] + a[1..];
      MulCons(a[0], a[1..], b);
    }
  }

  lemma RotateAdd(a: Poly, b: Poly)
    requires |a| == |b|
    ensures Rotate(Add(a, b)) == Add(Rotate(a), Rotate(b))
  {
    forall i | 0 <= i < |a|
      ensures Rotate(Add(a, b))[i] == Add(Rotate(a), Rotate(b))[i]
    {
    }
  }

  lemma RotateScale(c: int, a: Poly)
    ensures Rotate(Scale(c, a)) == Scale(c, Rotate(a))
  {
    if |a| > 0 {
      var x := a[|a| - 1];
      assert -(c * x) == c * -x;
    }
  }

  // --------------------------------------------------------- action is linear

  lemma {:induction false} MulAddRight(a: Poly, b: Poly, c: Poly)
    requires |b| == |c|
    ensures Mul(a, Add(b, c)) == Add(Mul(a, b), Mul(a, c))
  {
    MulSplit(a, Add(b, c));
    MulSplit(a, b);
    MulSplit(a, c);
    if |a| > 0 {
      var t := a[1..];
      MulAddRight(t, b, c);
      ScaleAdd(a[0], b, c);
      RotateAdd(Mul(t, b), Mul(t, c));
      AddSwap(Scale(a[0], b), Scale(a[0], c), Rotate(Mul(t, b)), Rotate(Mul(t, c)));
    }
  }

  lemma {:induction false} MulScaleRight(a: Poly, k: int, b: Poly)
    ensures Mul(a, Scale(k, b)) == Scale(k, Mul(a, b))
  {
    MulSplit(a, Scale(k, b));
    MulSplit(a, b);
    if |a| > 0 {
      var t := a[1..];
      MulScaleRight(t, k, b);
      ScaleScale(a[0], k, b);
      ScaleScale(k, a[0], b);
      assert a[0] * k == k * a[0];
      RotateScale(k, Mul(t, b));
      ScaleAdd(k, Scale(a[0], b), Rotate(Mul(t, b)));
    } else {
      assert Scale(k, Zero(|b|)) == Zero(|b|);
    }
  }

  lemma {:induction false} MulRotateRight(a: Poly, b: Poly)
    ensures Mul(a, Rotate(b)) == Rotate(Mul(a, b))
  {
    MulSplit(a, Rotate(b));
    MulSplit(a, b);
    if |a| > 0 {
      var t := a[1..];
      MulRotateRight(t, b);
      RotateScale(a[0], b);
      RotateAdd(Scale(a[0], b), Rotate(Mul(t, b)));
    } else {
      assert Rotate(Zero(|b|)) == Zero(|b|);
    }
  }

  lemma {:induction false} MulAddLeft(a: Poly, b: Poly, c: Poly)
    requires |a| == |b|
    ensures Mul(Add(a, b), c) == Add(Mul(a, c), Mul(b, c))
  {
    MulSplit(Add(a, b), c);
    MulSplit(a, c);
    MulSplit(b, c);
    if |a| > 0 {
      var s, t := a[1..], b[1..];
      assert Add(a, b)[1..] == Add(s, t);
      MulAddLeft(s, t, c);
      ScaleSum(a[0], b[0], c);
      AddRotated(Scale(a[0], c), Scale(b[0], c), Mul(s, c), Mul(t, c));
    } else {
      assert Add(Zero(|c|), Zero(|c|)) == Zero(|c|);
    }
  }

  lemma AddRotated(u: Poly, v: Poly, x: Poly, y: Poly)
    requires |u| == |v| == |x| == |y|
    ensures Add(Add(u, v), Rotate(Add(x, y))) == Add(Add(u, Rotate(x)), Add(v, Rotate(y)))
  {
    RotateAdd(x, y);
    AddSwap(u, v, Rotate(x), Rotate(y));
  }

  lemma {:induction false} MulScaleLeft(k: int, a: Poly, c: Poly)
    ensures Mul(Scale(k, a), c) == Scale(k, Mul(a, c))
  {
    MulSplit(Scale(k, a), c);
    MulSplit(a, c);
    if |a| > 0 {
      var t := a[1..];
      assert Scale(k, a)[1..] == Scale(k, t);
      MulScaleLeft(k, t, c);
      ScaleScale(k, a[0], c);
      RotateScale(k, Mul(t, c));
      ScaleAdd(k, Scale(a[0], c), Rotate(Mul(t, c)));
    } else {
      assert Scale(k, Zero(|c|)) == Zero(|c|);
    }
  }

  // ------------------------------------------------------- X^n acts as minus 1

  /** X^k times b, coefficient by coefficient. */
  function Power(k: nat, b: Poly): (r: Poly)
    ensures |r| == |b|
  {
    if k == 0 then b else Rotate(Power(k - 1, b))
  }

  lemma {:induction false} PowerCoefficient(k: nat, b: Poly, d: nat)
    requires k <= |b| && d < |b|
    ensures Power(k, b)[d] == if k <= d then b[d - k] else -b[|b| + d - k]
  {
    if k > 0 {
      if d > 0 {
        PowerCoefficient(k - 1, b, d - 1);
      } else {
        PowerCoefficient(k - 1, b, |b| - 1);
      }
    }
  }

  lemma PowerFull(b: Poly)
    ensures Power(|b|, b) == Scale(-1, b)
  {
    forall d | 0 <= d < |b|
      ensures Power(|b|, b)[d] == Scale(-1, b)[d]
    {
      PowerCoefficient(|b|, b, d);
    }
  }

  lemma {:induction false} PowerScale(k: nat, c: int, b: Poly)
    ensures Power(k, Scale(c, b)) == Scale(c, Power(k, b))
  {
    if k > 0 {
      PowerScale(k - 1, c, b);
      RotateScale(c, Power(k - 1, b));
    }
  }

  /** Splitting off the top coefficient of the acting polynomial. */
  lemma {:induction false} MulSnoc(a: Poly, x: int, b: Poly)
    ensures Mul(a + [x], b) == Add(Mul(a, b), Scale(x, Power(|a|, b)))
  {
    MulSplit(a, b);
    MulSplit(a + [x], b);
    if |a| == 0 {
      assert (a + [x])[1..] == [];
      MulNil(b);
      assert Rotate(Zero(|b|)) == Zero(|b|);
      assert Add(Scale(x, b), Zero(|b|)) == Add(Zero(|b|), Scale(x, b));
    } else {
      var t := a[1..];
      assert (a + [x])[1..] == t + [x];
      MulSnoc(t, x, b);
      RotateSnoc(Scale(a[0], b), Mul(t, b), x, Power(|t|, b));
      assert Rotate(Power(|t|, b)) == Power(|a|, b);
    }
  }

  lemma RotateSnoc(s: Poly, m: Poly, x: int, p: Poly)
    requires |s| == |m| == |p|
    ensures Add(s, Rotate(Add(m, Scale(x, p)))) == Add(Add(s, Rotate(m)), Scale(x, Rotate(p)))
  {
    RotateAdd(m, Scale(x, p));
    RotateScale(x, p);
    AddAssoc(s, Rotate(m), Scale(x, Rotate(p)));
  }

  /** X^n acts as -1: rotating the last power of X gives the negated vector. */
  lemma RotateTop(x: int, c: Poly)
    requires |c| > 0
    ensures Rotate(Scale(x, Power(|c| - 1, c))) == Scale(-x, c)
  {
    PowerFull(c);
    RotateNegated(x, Power(|c| - 1, c), c);
  }

  lemma RotateNegated(x: int, p: Poly, c: Poly)
    requires |p| == |c| && Rotate(p) == Scale(-1, c)
    ensures Rotate(Scale(x, p)) == Scale(-x, c)
  {
    RotateScale(x, p);
    ScaleScale(x, -1, c);
  }

  /** Rotating the acting polynomial rotates the product. */
  lemma MulRotateLeft(a: Poly, c: Poly)
    requires |a| == |c|
    ensures Mul(Rotate(a), c) == Rotate(Mul(a, c))
  {
    if |a| > 0 {
      var x, p := a[|a| - 1], a[..|a| - 1];
      var u, v := Mul(p, c), Scale(x, Power(|p|, c));
      assert Mul(a, c) == Add(u, v) by {
        assert a == p + [x];
        MulSnoc(p, x, c);
      }
      RotateAdd(u, v);
      RotateTop(x, c);
      MulCons(-x, p, c);
      AddComm(Scale(-x, c), Rotate(u));
    }
  }

  // ---------------------------------------------------------------- ring laws

  lemma {:induction false} MulAssoc(a: Poly, b: Poly, c: Poly)
    requires |b| == |c|
    ensures Mul(Mul(a, b), c) == Mul(a, Mul(b, c))
  {
    MulSplit(a, b);
    MulSplit(a, Mul(b, c));
    if |a| > 0 {
      var t := a[1..];
      MulAssoc(t, b, c);
      MulAddLeft(Scale(a[0], b), Rotate(Mul(t, b)), c);
      MulScaleLeft(a[0], b, c);
      MulRotateLeft(Mul(t, b), c);
    } else {
      MulZeroLeft(|b|, c);
    }
  }

  lemma {:induction false} MulZeroLeft(n: nat, c: Poly)
    ensures Mul(Zero(n), c) == Zero(|c|)
  {
    assert Scale(0, Zero(n)) == Zero(n);
    MulScaleLeft(0, Zero(n), c);
    assert Scale(0, Mul(Zero(n), c)) == Zero(|c|);
  }

  lemma MulZeroRight(a: Poly, n: nat)
    ensures Mul(a, Zero(n)) == Zero(n)
  {
    assert Scale(0, Zero(n)) == Zero(n);
    MulScaleRight(a, 0, Zero(n));
    assert Scale(0, Mul(a, Zero(n))) == Zero(n);
  }

  /** The two actions commute. */
  lemma {:induction false} MulLeftComm(a: Poly, b: Poly, c: Poly)
    ensures Mul(a, Mul(b, c)) == Mul(b, Mul(a, c))
  {
    MulSplit(a, Mul(b, c));
    MulSplit(a, c);
    if |a| > 0 {
      var t := a[1..];
      MulLeftComm(t, b, c);
      MulAddRight(b, Scale(a[0], c), Rotate(Mul(t, c)));
      MulScaleRight(b, a[0], c);
      MulRotateRight(b, Mul(t, c));
    } else {
      MulZeroRight(b, |c|);
    }
  }

  lemma MulConstLeft(k: int, c: Poly)
    requires |c| > 0
    ensures Mul(Const(k, |c|), c) == Scale(k, c)
  {
    MulCons(k, Zero(|c| - 1), c);
    MulZeroLeft(|c| - 1, c);
    assert Rotate(Zero(|c|)) == Zero(|c|);
    assert Add(Scale(k, c), Zero(|c|)) == Scale(k, c);
  }

  lemma {:induction false} PowerUnit(k: nat, n: nat)
    requires k < n
    ensures Power(k, Const(1, n)) == Zero(k) + [1] + Zero(n - k - 1)
  {
    if k > 0 {
      PowerUnit(k - 1, n);
    }
  }

  lemma PlaceTop(p: Poly, x: int, m: nat)
    ensures Add(p + Zero(m + 1), Scale(x, Zero(|p|) + [1] + Zero(m))) == p + [x] + Zero(m)
  {
  }

  lemma {:induction false} MulUnitPrefix(a: Poly, n: nat)
    requires 0 < n && |a| <= n
    ensures Mul(a, Const(1, n)) == a + Zero(n - |a|)
  {
    var k := |a|;
    if k > 0 {
      var x, p := a[k - 1], a[..k - 1];
      MulUnitPrefix(p, n);
      PowerUnit(k - 1, n);
      PlaceTop(p, x, n - k);
      assert a == p + [x];
      MulSnoc(p, x, Const(1, n));
    } else {
      MulNil(Const(1, n));
      assert Zero(n) == a + Zero(n);
    }
  }

  lemma MulUnitRight(a: Poly)
    requires |a| > 0
    ensures Mul(a, Const(1, |a|)) == a
  {
    MulUnitPrefix(a, |a|);
    assert a + Zero(0) == a;
  }

  lemma MulComm(a: Poly, b: Poly)
    requires |a| == |b|
    ensures Mul(a, b) == Mul(b, a)
  {
    if |a| > 0 {
      var e := Const(1, |a|);
      MulUnitRight(a);
      MulUnitRight(b);
      MulLeftComm(a, b, e);
    }
  }

  // ------------------------------------------------------------------ powers

  /** The ring power s^k, built by the repeated right multiplication of the oracle. */
  ghost function RingPower(s: Poly, k: nat): (r: Poly)
    requires |s| > 0
    ensures |r| == |s|
  {
    if k == 0 then Const(1, |s|) else Mul(RingPower(s, k - 1), s)
  }

  lemma FirstPower(s: Poly)
    requires |s| > 0
    ensures RingPower(s, 1) == s
  {
    MulConstLeft(1, s);
    assert RingPower(s, 0) == Const(1, |s|);
    assert Scale(1, s) == s;
  }

  // -------------------------------------------------------- bounds of the action

  lemma RotateBounded(a: Poly, x: int)
    requires Bounded(a, x)
    ensures Bounded(Rotate(a), x)
  {
  }

  /** Young's inequality for the ring: |a*b|_inf <= |a|_1 * |b|_inf. */
  lemma {:induction false} MulBounded(a: Poly, b: Poly, y: int)
    requires Bounded(b, y) && y >= 0
    ensures Bounded(Mul(a, b), L1(a) * y)
  {
    MulSplit(a, b);
    if |a| > 0 {
      var t := a[1..];
      var u, v := Scale(a[0], b), Mul(t, b);
      MulBounded(t, b, y);
      ScaleBounded(a[0], b, y);
      RotateBounded(v, L1(t) * y);
      AddBounded(u, Rotate(v), Abs(a[0]) * y, L1(t) * y);
      Distribute(y, Abs(a[0]), L1(t));
      assert L1(a) == Abs(a[0]) + L1(t);
    }
  }

  lemma HalfRotate(a: Poly, y: int)
    requires HalfBounded(a, y)
    ensures HalfBounded(Rotate(a), y)
  {
  }

  lemma {:induction false} HalfMul(a: Poly, b: Poly, y: int)
    requires HalfBounded(b, y) && y >= 0
    ensures HalfBounded(Mul(a, b), L1(a) * y)
  {
    MulSplit(a, b);
    if |a| > 0 {
      var t := a[1..];
      var u, v := Scale(a[0], b), Mul(t, b);
      HalfMul(t, b, y);
      HalfScale(a[0], b, y);
      HalfRotate(v, L1(t) * y);
      HalfAdd(u, Rotate(v), Abs(a[0]) * y, L1(t) * y);
      Distribute(y, Abs(a[0]), L1(t));
      assert L1(a) == Abs(a[0]) + L1(t);
    }
  }

  /** Row i of a double loop contributes a[i] * X^i * b. */
  lemma RowStep(a: Poly, i: nat, b: Poly)
    requires i < |a|
    ensures Mul(a[..i + 1], b) == Add(Mul(a[..i], b), Scale(a[i], Power(i, b)))
  {
    assert a[..i + 1] == a[..i] + [a[i]];
    MulSnoc(a[..i], a[i], b);
  }
  // --------------------------------------------------------- the convolution

  /** The first m terms of coefficient k of the negacyclic convolution. */
  function Convolve(a: Poly, b: Poly, k: nat, m: nat): int
    requires k < |a| == |b| && m <= |a|
  {
    if m == 0 then 0
    else
      var i := m - 1;
      Convolve(a, b, k, i) + a[i] * (if i <= k then b[k - i] else -b[|b| + k - i])
  }

  lemma {:induction false} PartialConvolution(a: Poly, b: Poly, k: nat, m: nat)
    requires k < |a| == |b| && m <= |a|
    ensures Mul(a[..m], b)[k] == Convolve(a, b, k, m)
  {
    if m > 0 {
      PartialConvolution(a, b, k, m - 1);
      RowStep(a, m - 1, b);
      PowerCoefficient(m - 1, b, k);
      ReadSum(Mul(a[..m - 1], b), Mul(a[..m], b), a[m - 1], Power(m - 1, b), k);
    } else {
      MulNil(b);
    }
  }

  /** Coefficient k is the sum over i + j = k minus the sum over i + j = k + n. */
  lemma MulIsConvolution(a: Poly, b: Poly, k: nat)
    requires k < |a| == |b|
    ensures Mul(a, b)[k] == Convolve(a, b, k, |a|)
  {
    assert a[..|a|] == a;
    PartialConvolution(a, b, k, |a|);
  }

  // ---------------------------------------------------------------- norms

  /** The coefficient bound n * |a|_inf * |b|_inf. */
  lemma MulBoundedInf(a: Poly, b: Poly, x: int, y: int)
    requires |a| == |b| && Bounded(a, x) && Bounded(b, y) && y >= 0
    ensures Bounded(Mul(a, b), |a| * x * y)
  {
    MulBounded(a, b, y);
    L1Bound(a, x);
    MulMono(L1(a), |a| * x, y);
    forall i | 0 <= i < |b|
      ensures Abs(Mul(a, b)[i]) <= |a| * x * y
    {
    }
  }

  /** Multiplying by a ternary secret grows coefficients at most n-fold. */
  lemma TernaryAction(e: Poly, s: Poly, y: int)
    requires |e| == |s| && Ternary(s) && y >= 0 && HalfBounded(e, y)
    ensures HalfBounded(Mul(e, s), |s| * y)
  {
    MulComm(e, s);
    HalfMul(s, e, y);
    L1Bound(s, 1);
    MulMono(L1(s), |s|, y);
    HalfWeaken(Mul(s, e), L1(s) * y, |s| * y);
  }

  /** Multiplication respects congruence in both factors. */
  lemma CongPolyMul(a: Poly, b: Poly, c: Poly, d: Poly, m: int)
    requires m > 0 && |a| == |c| && CongPoly(a, b, m) && CongPoly(c, d, m)
    ensures CongPoly(Mul(a, c), Mul(b, d), m)
  {
    var k := CongPolyWitness(a, b, m);
    var l := CongPolyWitness(c, d, m);
    MulAddLeft(b, Scale(m, k), c);
    MulScaleLeft(m, k, c);
    CongPolyFrom(Mul(a, c), Mul(b, c), m, Mul(k, c));
    MulAddRight(b, d, Scale(m, l));
    MulScaleRight(b, m, l);
    CongPolyFrom(Mul(b, c), Mul(b, d), m, Mul(b, l));
  }

  // ------------------------------------------------------------ the double loop

  /** The column of row i that lands on coefficient d. */
  function Column(n: nat, i: nat, d: nat): nat
    requires i < n && d < n
  {
    if i <= d then d - i else n + d - i
  }

  /** What row i, processed up to column j, has added to coefficient d. */
  function RowPart(row: Poly, i: nat, j: nat, d: nat): int
    requires d < |row| && i < |row|
  {
    if Column(|row|, i, d) < j then row[d] else 0
  }

  /** The contribution of entry (i, j): it lands on exactly one coefficient. */
  lemma EntryStep(left: Poly, right: Poly, row: Poly, i: nat, j: nat)
    requires |left| == |right| == |row| && i < |left| && j < |left|
    requires row == Scale(left[i], Power(i, right))
    ensures var n := |left|;
            var t := if i + j >= n then i + j - n else i + j;
            && row[t] == (if i + j >= n then -(left[i] * right[j]) else left[i] * right[j])
            && (forall d :: 0 <= d < n ==>
                  RowPart(row, i, j + 1, d) == RowPart(row, i, j, d) + (if d == t then row[t] else 0))
  {
    var n := |left|;
    var t := if i + j >= n then i + j - n else i + j;
    EntryValue(left[i], right, Power(i, right), row, i, j, t);
    EntryColumn(row, i, j, t);
  }

  lemma EntryValue(c: int, right: Poly, p: Poly, row: Poly, i: nat, j: nat, t: nat)
    requires i < |right| && j < |right| && |p| == |right| && p == Power(i, right) && row == Scale(c, p)
    requires t == if i + j >= |right| then i + j - |right| else i + j
    ensures row[t] == (if i + j >= |right| then -(c * right[j]) else c * right[j])
  {
    PowerCoefficient(i, right, t);
    ScaledEntry(c, p, row, t, right[j]);
  }

  lemma EntryColumn(row: Poly, i: nat, j: nat, t: nat)
    requires i < |row| && j < |row| && t == if i + j >= |row| then i + j - |row| else i + j
    ensures forall d :: 0 <= d < |row| ==>
              RowPart(row, i, j + 1, d) == RowPart(row, i, j, d) + (if d == t then row[t] else 0)
  {
    forall d | 0 <= d < |row|
      ensures RowPart(row, i, j + 1, d) == RowPart(row, i, j, d) + (if d == t then row[t] else 0)
    {
      assert Column(|row|, i, d) == j <==> d == t;
    }
  }

  lemma ScaledEntry(c: int, p: Poly, row: Poly, t: nat, y: int)
    requires t < |p| && row == Scale(c, p)
    ensures p[t] == y ==> row[t] == c * y
    ensures p[t] == -y ==> row[t] == -(c * y)
  {
    DistributeSub(c, 0, y);
  }

  /** The inner loop: row i, added into the running result. */
  method MulRow(start: Poly, left: Poly, i: nat, right: Poly) returns (result: Poly)
    requires |left| == |right| == |start| && i < |left|
    ensures result == Add(start, Scale(left[i], Power(i, right)))
  {
    var n := |left|;
    result := start;
    ghost var row := Scale(left[i], Power(i, right));
    for j := 0 to n
      invariant |result| == n
      invariant forall d :: 0 <= d < n ==> result[d] == start[d] + RowPart(row, i, j, d)
    {
      EntryStep(left, right, row, i, j);
      var degree := i + j;
      if degree >= n {
        result := result[degree - n := result[degree - n] - left[i] * right[j]];
      } else {
        result := result[degree := result[degree] + left[i] * right[j]];
      }
    }
    assert result == Add(start, row);
  }

  /** The product of the first i coefficients of the left factor. */
  ghost function Partial(left: Poly, i: nat, right: Poly): (r: Poly)
    requires i <= |left| == |right|
    ensures |r| == |left|
  {
    Mul(left[..i], right)
  }

  lemma PartialStep(left: Poly, i: nat, right: Poly)
    requires i < |left| == |right|
    ensures Partial(left, i + 1, right) == Add(Partial(left, i, right), Scale(left[i], Power(i, right)))
  {
    RowStep(left, i, right);
  }

  lemma PartialEnds(left: Poly, right: Poly)
    requires |left| == |right|
    ensures Partial(left, 0, right) == Zero(|left|)
    ensures Partial(left, |left|, right) == Mul(left, right)
  {
    assert left[..|left|] == left;
    MulNil(right);
  }

  /**
   The schoolbook double loop: entry (i, j) is added at coefficient i + j, or
   subtracted at i + j - n when the degree wraps.
   */
  method MulLoops(left: Poly, right: Poly) returns (result: Poly)
    requires |left| == |right|
    ensures result == Mul(left, right)
  {
    PartialEnds(left, right);
    result := Zero(|left|);
    for i := 0 to |left|
      invariant result == Partial(left, i, right)
    {
      PartialStep(left, i, right);
      result := MulRow(result, left, i, right);
    }
  }
}
