/** Integer affine maps, and the interval of a linear combination over a box. */
module Affine {
  import opened Bounds
  import opened Permutations
  import opened DependenceVectors

  // coefs . x + offset: one output level of an iteration map.
  datatype Row = Row(coefs: seq<int>, offset: int)

  function Dot(a: seq<int>, b: seq<int>, k: nat): int
    requires k <= |a| && k <= |b|
  {
    if k == 0 then 0 else Dot(a, b, k - 1) + a[k - 1] * b[k - 1]
  }

  function Value(r: Row, x: seq<int>): int
    requires |r.coefs| == |x|
  {
    Dot(r.coefs, x, |x|) + r.offset
  }

  ghost predicate IsMap(rows: seq<Row>, width: nat) {
    forall l :: 0 <= l < |rows| ==> |rows[l].coefs| == width
  }

  /** The iteration vector an affine map assigns to x. */
  function Image(rows: seq<Row>, x: seq<int>): (v: seq<int>)
    requires forall l :: 0 <= l < |rows| ==> |rows[l].coefs| == |x|
    ensures |v| == |rows| && forall l :: 0 <= l < |rows| ==> v[l] == Value(rows[l], x)
  {
    seq(|rows|, l requires 0 <= l < |rows| => Value(rows[l], x))
  }

  /** Rearranging the rows of a map rearranges its images. */
  lemma ImageRearranged(rows: seq<Row>, x: seq<int>, p: seq<int>)
    requires forall l :: 0 <= l < |rows| ==> |rows[l].coefs| == |x|
    requires InRange(p, |rows|)
    ensures Image(Rearranged(rows, p), x) == Rearranged(Image(rows, x), p)
  {
  }

  function AddScaled(acc: Row, c: int, r: Row): (s: Row)
    requires |acc.coefs| == |r.coefs|
    ensures |s.coefs| == |acc.coefs|
  {
    Row(seq(|acc.coefs|, i requires 0 <= i < |acc.coefs| => acc.coefs[i] + c * r.coefs[i]), acc.offset + c * r.offset)
  }

  lemma {:induction false} DotAddScaled(acc: Row, c: int, r: Row, x: seq<int>, k: nat)
    requires |acc.coefs| == |r.coefs| == |x| && k <= |x|
    ensures Dot(AddScaled(acc, c, r).coefs, x, k) == Dot(acc.coefs, x, k) + c * Dot(r.coefs, x, k)
  {
    if k > 0 {
      DotAddScaled(acc, c, r, x, k - 1);
      DistributeStep(acc.coefs[k - 1], r.coefs[k - 1], c, x[k - 1], Dot(acc.coefs, x, k - 1), Dot(r.coefs, x, k - 1));
    }
  }

  lemma DistributeStep(a: int, b: int, c: int, y: int, s: int, t: int)
    ensures (s + c * t) + (a + c * b) * y == (s + a * y) + c * (t + b * y)
  {
  }

  lemma AddScaledValue(acc: Row, c: int, r: Row, x: seq<int>)
    requires |acc.coefs| == |r.coefs| == |x|
    ensures Value(AddScaled(acc, c, r), x) == Value(acc, x) + c * Value(r, x)
  {
    DotAddScaled(acc, c, r, x, |x|);
  }

  /** Nonzero amounts refer to existing components. */
  predicate Applicable(amounts: seq<int>, n: nat) {
    forall j :: n <= j < |amounts| ==> amounts[j] == 0
  }

  /** Sum of amounts[j] * v[j] over the nonzero amounts among the first k. */
  function WeightedSum(amounts: seq<int>, v: seq<int>, k: nat): int
    requires k <= |amounts| && Applicable(amounts, |v|)
  {
    if k == 0 then 0
    else if amounts[k - 1] == 0 then WeightedSum(amounts, v, k - 1)
    else WeightedSum(amounts, v, k - 1) + amounts[k - 1] * v[k - 1]
  }

  /** The row whose value is the weighted sum of the rows' values. */
  function Combined(amounts: seq<int>, rows: seq<Row>, width: nat, k: nat): (r: Row)
    requires k <= |amounts| && Applicable(amounts, |rows|) && IsMap(rows, width)
    ensures |r.coefs| == width
  {
    if k == 0 then Row(seq(width, _ => 0), 0)
    else if amounts[k - 1] == 0 then Combined(amounts, rows, width, k - 1)
    else AddScaled(Combined(amounts, rows, width, k - 1), amounts[k - 1], rows[k - 1])
  }

  lemma {:induction false} DotZero(x: seq<int>, k: nat)
    requires k <= |x|
    ensures Dot(seq(|x|, _ => 0), x, k) == 0
  {
    if k > 0 {
      DotZero(x, k - 1);
    }
  }

  lemma {:induction false} CombinedValue(amounts: seq<int>, rows: seq<Row>, x: seq<int>, k: nat)
    requires k <= |amounts| && Applicable(amounts, |rows|) && IsMap(rows, |x|)
    ensures Value(Combined(amounts, rows, |x|, k), x) == WeightedSum(amounts, Image(rows, x), k)
  {
    if k == 0 {
      DotZero(x, |x|);
    } else {
      CombinedValue(amounts, rows, x, k - 1);
      if amounts[k - 1] != 0 {
        AddScaledValue(Combined(amounts, rows, |x|, k - 1), amounts[k - 1], rows[k - 1], x);
      }
    }
  }

  lemma {:induction false} WeightedDifference(amounts: seq<int>, a: seq<int>, b: seq<int>, d: seq<int>, k: nat)
    requires |a| == |b| == |d| && k <= |amounts| && Applicable(amounts, |a|)
    requires forall i :: 0 <= i < |a| ==> d[i] == a[i] - b[i]
    ensures WeightedSum(amounts, d, k) == WeightedSum(amounts, a, k) - WeightedSum(amounts, b, k)
  {
    if k > 0 {
      WeightedDifference(amounts, a, b, d, k - 1);
      if amounts[k - 1] != 0 {
        assert amounts[k - 1] * (a[k - 1] - b[k - 1]) == amounts[k - 1] * a[k - 1] - amounts[k - 1] * b[k - 1];
      }
    }
  }

  // ---------- The interval of a weighted sum over a box ----------

  /** The end of component j that makes a * v[j] small. */
  function LowEnd(d: DependenceVector, a: int, j: nat): Bound
    requires j < |d.lbounds| == |d.ubounds|
  {
    if a > 0 then d.lbounds[j] else d.ubounds[j]
  }

  function SkewLow(d: DependenceVector, amounts: seq<int>, k: nat): (b: Bound)
    requires |d.lbounds| == |d.ubounds| && k <= |amounts| && Applicable(amounts, |d.lbounds|)
    ensures !b.PosInf?
  {
    if k == 0 then ZERO
    else if amounts[k - 1] == 0 then SkewLow(d, amounts, k - 1)
    else
      var low, end := SkewLow(d, amounts, k - 1), LowEnd(d, amounts[k - 1], k - 1);
      if low.Fin? && end.Fin? then Fin(low.v + amounts[k - 1] * end.v) else NegInf
  }

  function NegatedAmounts(amounts: seq<int>): (r: seq<int>)
    ensures |r| == |amounts| && forall j :: 0 <= j < |amounts| ==> r[j] == -amounts[j]
  {
    seq(|amounts|, j requires 0 <= j < |amounts| => -amounts[j])
  }

  function SkewHigh(d: DependenceVector, amounts: seq<int>, k: nat): (b: Bound)
    requires |d.lbounds| == |d.ubounds| && k <= |amounts| && Applicable(amounts, |d.lbounds|)
    ensures !b.NegInf?
  {
    if k == 0 then ZERO
    else if amounts[k - 1] == 0 then SkewHigh(d, amounts, k - 1)
    else
      var high, end := SkewHigh(d, amounts, k - 1), LowEnd(d, -amounts[k - 1], k - 1);
      if high.Fin? && end.Fin? then Fin(high.v + amounts[k - 1] * end.v) else PosInf
  }

  lemma NegatedProduct(a: int, x: int)
    ensures (-a) * x == -(a * x)
  {
  }

  lemma {:induction false} HighIsNegatedLow(d: DependenceVector, amounts: seq<int>, k: nat)
    requires |d.lbounds| == |d.ubounds| && k <= |amounts| && Applicable(amounts, |d.lbounds|)
    ensures SkewHigh(d, amounts, k) == SkewLow(d, NegatedAmounts(amounts), k).Negated()
  {
    if k > 0 {
      HighIsNegatedLow(d, amounts, k - 1);
      var a := amounts[k - 1];
      assert NegatedAmounts(amounts)[k - 1] == -a;
      if a != 0 {
        var end := LowEnd(d, -a, k - 1);
        if end.Fin? {
          NegatedProduct(a, end.v);
        }
      }
    }
  }

  lemma {:induction false} NegatedWeightedSum(amounts: seq<int>, v: seq<int>, k: nat)
    requires k <= |amounts| && Applicable(amounts, |v|)
    ensures WeightedSum(NegatedAmounts(amounts), v, k) == -WeightedSum(amounts, v, k)
  {
    if k > 0 {
      NegatedWeightedSum(amounts, v, k - 1);
    }
  }

  /** a * x >= a * (the end of its interval). */
  lemma EndIsLow(d: DependenceVector, a: int, j: nat, x: int)
    requires d.Valid() && j < |d.lbounds| && Within(d.lbounds[j], d.ubounds[j], x) && a != 0
    ensures LowEnd(d, a, j).Fin? ==> a * LowEnd(d, a, j).v <= a * x
  {
    var end := LowEnd(d, a, j);
    if end.Fin? {
      if a > 0 {
        assert end.v <= x;
      } else {
        assert x <= end.v;
      }
    }
  }

  /** Soundness of the lower end: no member of the box has a smaller weighted sum. */
  lemma {:induction false} SkewLowSound(d: DependenceVector, amounts: seq<int>, v: seq<int>, k: nat)
    requires d.Valid() && k <= |amounts| && Applicable(amounts, |d.lbounds|) && d.Contains(v)
    ensures SkewLow(d, amounts, k).AtMost(WeightedSum(amounts, v, k))
  {
    if k > 0 {
      SkewLowSound(d, amounts, v, k - 1);
      if amounts[k - 1] != 0 {
        EndIsLow(d, amounts[k - 1], k - 1, v[k - 1]);
      }
    }
  }

  lemma {:induction false} WeightedSumLocal(amounts: seq<int>, v: seq<int>, w: seq<int>, k: nat)
    requires |v| == |w| && k <= |amounts| && Applicable(amounts, |v|)
    requires forall j :: 0 <= j < k && j < |v| ==> v[j] == w[j]
    ensures WeightedSum(amounts, v, k) == WeightedSum(amounts, w, k)
  {
    if k > 0 {
      WeightedSumLocal(amounts, v, w, k - 1);
    }
  }

  lemma ScaledDown(a: int, x: int)
    requires a >= 1 && x <= 0
    ensures a * x <= x
  {
  }

  /** An unbounded side lets a * x go below any target. */
  lemma BelowTarget(d: DependenceVector, a: int, j: nat, target: int) returns (x: int)
    requires d.Valid() && j < |d.lbounds| && a != 0 && !LowEnd(d, a, j).Fin?
    ensures Within(d.lbounds[j], d.ubounds[j], x) && a * x <= target
  {
    var size := if target < 0 then -target else target;
    if a > 0 {
      x := -size;
      if d.ubounds[j].Fin? && d.ubounds[j].v < x {
        x := d.ubounds[j].v;
      }
      ScaledDown(a, x);
    } else {
      x := size;
      if d.lbounds[j].Fin? && d.lbounds[j].v > x {
        x := d.lbounds[j].v;
      }
      ScaledDown(-a, -x);
      assert (-a) * (-x) == a * x;
    }
  }

  /** Tightness of the lower end: it is attained when finite, and otherwise the sum goes below any target. */
  lemma {:induction false} SkewLowTight(d: DependenceVector, amounts: seq<int>, k: nat, target: int)
    returns (v: seq<int>)
    requires d.Valid() && k <= |amounts| && Applicable(amounts, |d.lbounds|)
    ensures d.Contains(v)
    ensures var low := SkewLow(d, amounts, k);
            if low.Fin? then WeightedSum(amounts, v, k) == low.v else WeightedSum(amounts, v, k) <= target
  {
    if k == 0 {
      v := d.NearestMember();
    } else if amounts[k - 1] == 0 {
      v := SkewLowTight(d, amounts, k - 1, target);
    } else {
      var a, j := amounts[k - 1], k - 1;
      var end := LowEnd(d, a, j);
      var x: int;
      if end.Fin? {
        x := end.v;
        var u := SkewLowTight(d, amounts, k - 1, target - a * x);
        v := u[j := x];
        WeightedSumLocal(amounts, u, v, k - 1);
      } else {
        var u := SkewLowTight(d, amounts, k - 1, target);
        x := BelowTarget(d, a, j, target - WeightedSum(amounts, u, k - 1));
        v := u[j := x];
        WeightedSumLocal(amounts, u, v, k - 1);
      }
    }
  }

  ghost predicate Attains(d: DependenceVector, amounts: seq<int>, t: int)
    requires d.Valid() && Applicable(amounts, |d.lbounds|)
  {
    exists v :: d.Contains(v) && WeightedSum(amounts, v, |amounts|) == t
  }

  ghost predicate GoesBelow(d: DependenceVector, amounts: seq<int>, t: int)
    requires d.Valid() && Applicable(amounts, |d.lbounds|)
  {
    exists v :: d.Contains(v) && WeightedSum(amounts, v, |amounts|) <= t
  }

  ghost predicate GoesAbove(d: DependenceVector, amounts: seq<int>, t: int)
    requires d.Valid() && Applicable(amounts, |d.lbounds|)
  {
    exists v :: d.Contains(v) && WeightedSum(amounts, v, |amounts|) >= t
  }

  lemma LowSideExact(d: DependenceVector, amounts: seq<int>)
    requires d.Valid() && Applicable(amounts, |d.lbounds|)
    ensures var low := SkewLow(d, amounts, |amounts|);
            && (forall v :: d.Contains(v) ==> low.AtMost(WeightedSum(amounts, v, |amounts|)))
            && (low.Fin? ==> Attains(d, amounts, low.v))
            && (low.NegInf? ==> forall t :: GoesBelow(d, amounts, t))
  {
    forall v | d.Contains(v)
      ensures SkewLow(d, amounts, |amounts|).AtMost(WeightedSum(amounts, v, |amounts|))
    {
      SkewLowSound(d, amounts, v, |amounts|);
    }
    var w := SkewLowTight(d, amounts, |amounts|, 0);
    forall t | SkewLow(d, amounts, |amounts|).NegInf?
      ensures GoesBelow(d, amounts, t)
    {
      var v := SkewLowTight(d, amounts, |amounts|, t);
    }
  }

  lemma HighSideExact(d: DependenceVector, amounts: seq<int>)
    requires d.Valid() && Applicable(amounts, |d.lbounds|)
    ensures var high := SkewHigh(d, amounts, |amounts|);
            && (forall v :: d.Contains(v) ==> high.AtLeast(WeightedSum(amounts, v, |amounts|)))
            && (high.Fin? ==> Attains(d, amounts, high.v))
            && (high.PosInf? ==> forall t :: GoesAbove(d, amounts, t))
  {
    var high, negated := SkewHigh(d, amounts, |amounts|), NegatedAmounts(amounts);
    HighIsNegatedLow(d, amounts, |amounts|);
    forall v | d.Contains(v)
      ensures high.AtLeast(WeightedSum(amounts, v, |amounts|))
    {
      SkewLowSound(d, negated, v, |amounts|);
      NegatedWeightedSum(amounts, v, |amounts|);
    }
    var w := SkewLowTight(d, negated, |amounts|, 0);
    NegatedWeightedSum(amounts, w, |amounts|);
    forall t | high.PosInf?
      ensures GoesAbove(d, amounts, t)
    {
      var v := SkewLowTight(d, negated, |amounts|, -t);
      NegatedWeightedSum(amounts, v, |amounts|);
    }
  }

  /** skew's interval is sound and tight on both sides. */
  lemma SkewIntervalExact(d: DependenceVector, amounts: seq<int>)
    requires d.Valid() && Applicable(amounts, |d.lbounds|)
    ensures var low, high := SkewLow(d, amounts, |amounts|), SkewHigh(d, amounts, |amounts|);
            && Interval(low, high)
            && (forall v :: d.Contains(v) ==> Within(low, high, WeightedSum(amounts, v, |amounts|)))
            && (low.Fin? ==> Attains(d, amounts, low.v))
            && (high.Fin? ==> Attains(d, amounts, high.v))
            && (low.NegInf? ==> forall t :: GoesBelow(d, amounts, t))
            && (high.PosInf? ==> forall t :: GoesAbove(d, amounts, t))
  {
    LowSideExact(d, amounts);
    HighSideExact(d, amounts);
    assert d.Contains(d.NearestMember());
  }
}
