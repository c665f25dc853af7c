/**
 Labels over whole runs: the transformations keep every vector in its place on its
 edge, with its kind and scalar flag; only a skew, scale or reverse drops the quasi
 flag. So a vector that is quasi or scalar never makes a later permute throw ir_error.
 */
module RunLaws {
  import opened Outcomes
  import opened DependenceVectors
  import opened DependenceGraphs
  import opened LoopStates
  import opened LoopSafety
  import PermuteLaws
  import SkewLaws
  import ShiftLaws

  /** e is at the place of d: the same kind and scalar flag, quasi only if d is, and exactly if d is when kept. */
  ghost predicate LabelFrom(d: DependenceVector, e: DependenceVector, kept: bool) {
    && e.kind == d.kind && e.scalar == d.scalar
    && (e.quasi ==> d.quasi)
    && (kept ==> e.quasi == d.quasi)
  }

  ghost predicate LabelsFrom(ds: seq<DependenceVector>, es: seq<DependenceVector>, kept: bool) {
    |es| == |ds| && forall k :: 0 <= k < |ds| ==> LabelFrom(ds[k], es[k], kept)
  }

  /** Every edge of h has the vectors of g, in place. */
  ghost predicate GraphLabelsFrom(g: DependenceGraph, h: DependenceGraph, kept: bool) {
    forall i, j :: LabelsFrom(g.Edge(i, j), h.Edge(i, j), kept)
  }

  predicate KeepsQuasi(op: Op) {
    op.PermuteOp? || op.ShiftOp?
  }

  lemma PermuteLabels(s: LoopState, op: Op, t: LoopState)
    requires op.PermuteOp? && IsStep(s, op, t)
    ensures GraphLabelsFrom(s.dep, t.dep, true)
  {
    if op.active != {} && op.pi != [] {
      var level := LowestLevel(op.pi);
      assert PermuteLaws.GraphMoved(s.dep, t.dep, op.active, op.pi, level) by {
        PermuteLaws.PermuteMoves(s, op.active, op.pi, op.orders, t);
      }
      forall i, j
        ensures LabelsFrom(s.dep.Edge(i, j), t.dep.Edge(i, j), true)
      {
        assert PermuteLaws.ListMoved(s.dep.Edge(i, j), t.dep.Edge(i, j), op.pi, level, i in op.active, j in op.active);
      }
    }
  }

  lemma SkewLabels(s: LoopState, active: set<int>, level: int, amounts: seq<int>, t: LoopState)
    requires s.Valid() && SkewOutcome(s, active, level, amounts) == Ok(t)
    ensures GraphLabelsFrom(s.dep, t.dep, false)
  {
    if active != {} {
      SkewLaws.SkewMoves(s, active, level, amounts, t);
      forall i, j
        ensures LabelsFrom(s.dep.Edge(i, j), t.dep.Edge(i, j), false)
      {
        assert SkewLaws.ListSkewed(s.dep.Edge(i, j), t.dep.Edge(i, j), level - 1, amounts, i in active, j in active);
      }
    }
  }

  lemma ShiftLabels(s: LoopState, active: set<int>, level: int, amount: int, t: LoopState)
    requires s.Valid() && ShiftOutcome(s, active, level, amount) == Ok(t)
    ensures GraphLabelsFrom(s.dep, t.dep, true)
  {
    ShiftLaws.ShiftMoves(s, active, level, amount, Ok(t));
    if active != {} && amount != 0 {
      forall i, j
        ensures LabelsFrom(s.dep.Edge(i, j), t.dep.Edge(i, j), true)
      {
        assert ShiftLaws.ListShifted(s.dep.Edge(i, j), t.dep.Edge(i, j), level - 1,
                                     AddedBy(amount, i in active, j in active));
      }
    }
  }

  lemma StepLabels(s: LoopState, op: Op, t: LoopState)
    requires IsStep(s, op, t)
    ensures GraphLabelsFrom(s.dep, t.dep, KeepsQuasi(op))
  {
    match op
    case PermuteOp(_, _, _) => PermuteLabels(s, op, t);
    case SkewOp(active, level, amounts) => SkewLabels(s, active, level, amounts, t);
    case ScaleOp(active, level, amount) => SkewLabels(s, active, level, ScaleAmounts(level, amount), t);
    case ReverseOp(active, level) => SkewLabels(s, active, level, ScaleAmounts(level, -1), t);
    case ShiftOp(active, level, amount) => ShiftLabels(s, active, level, amount, t);
  }

  lemma LabelsChain(g: DependenceGraph, h: DependenceGraph, k: DependenceGraph, before: bool, now: bool)
    requires GraphLabelsFrom(g, h, before) && GraphLabelsFrom(h, k, now)
    ensures GraphLabelsFrom(g, k, before && now)
  {
    forall i, j
      ensures LabelsFrom(g.Edge(i, j), k.Edge(i, j), before && now)
    {
      assert LabelsFrom(g.Edge(i, j), h.Edge(i, j), before) && LabelsFrom(h.Edge(i, j), k.Edge(i, j), now);
    }
  }

  /** None of the first k transformations is a skew, scale or reverse. */
  predicate AllKeepQuasi(ops: seq<Op>, k: nat)
    requires k <= |ops|
  {
    forall m :: 0 <= m < k ==> KeepsQuasi(ops[m])
  }

  lemma LabelsSame(g: DependenceGraph)
    ensures GraphLabelsFrom(g, g, true)
  {
  }

  predicate AllKept(kept: seq<bool>, k: nat)
    requires k <= |kept|
  {
    k == 0 || (AllKept(kept, k - 1) && kept[k - 1])
  }

  lemma {:induction false} LabelsAlong(graphs: seq<DependenceGraph>, kept: seq<bool>, k: nat)
    requires |graphs| == |kept| + 1 && k <= |kept|
    requires forall m :: 0 <= m < |kept| ==> GraphLabelsFrom(graphs[m], graphs[m + 1], kept[m])
    ensures GraphLabelsFrom(graphs[0], graphs[k], AllKept(kept, k))
  {
    if k == 0 {
      LabelsSame(graphs[0]);
    } else {
      LabelsAlong(graphs, kept, k - 1);
      LabelsChain(graphs[0], graphs[k - 1], graphs[k], AllKept(kept, k - 1), kept[k - 1]);
    }
  }

  lemma {:induction false} AllKeptIff(ops: seq<Op>, kept: seq<bool>, k: nat)
    requires |kept| == |ops| && (forall m :: 0 <= m < |ops| ==> kept[m] == KeepsQuasi(ops[m])) && k <= |ops|
    ensures AllKept(kept, k) == AllKeepQuasi(ops, k)
  {
    if k > 0 {
      AllKeptIff(ops, kept, k - 1);
    }
  }

  lemma StepOfRun(states: seq<LoopState>, ops: seq<Op>, k: nat)
    requires IsRun(states, ops) && k < |ops|
    ensures GraphLabelsFrom(states[k].dep, states[k + 1].dep, KeepsQuasi(ops[k]))
  {
    assert IsStep(states[k], ops[k], states[k + 1]);
    StepLabels(states[k], ops[k], states[k + 1]);
  }

  /** Over a run every vector stays in its place, with its label; only skews drop quasi flags. */
  lemma RunKeepsLabels(states: seq<LoopState>, ops: seq<Op>, k: nat)
    requires IsRun(states, ops) && k <= |ops|
    ensures GraphLabelsFrom(states[0].dep, states[k].dep, AllKeepQuasi(ops, k))
  {
    var graphs := seq(|states|, i requires 0 <= i < |states| => states[i].dep);
    var kept := seq(|ops|, i requires 0 <= i < |ops| => KeepsQuasi(ops[i]));
    forall m | 0 <= m < |kept|
      ensures GraphLabelsFrom(graphs[m], graphs[m + 1], kept[m])
    {
      StepOfRun(states, ops, m);
    }
    LabelsAlong(graphs, kept, k);
    AllKeptIff(ops, kept, k);
  }

  /**
   Vector m of edge (i, j) is the fault: now it is ordinary and turned around, at the
   start it was not scalar, and not quasi unless a skew has dropped the flag.
   */
  ghost predicate Culprit(start: DependenceVector, now: DependenceVector, n: nat, pi: seq<int>, level: int,
                          kept: bool) {
    && PermuteLaws.Turned(now, n, pi, level)
    && !start.scalar && (kept ==> !start.quasi)
  }

  /** When a permute of a run throws ir_error, an ordinary vector of the start is the fault. */
  lemma IrErrorHasCulprit(states: seq<LoopState>, ops: seq<Op>, k: nat, op: Op)
    requires IsRun(states, ops) && k <= |ops|
    requires states[k].Valid() && op.PermuteOp? && Allowed(states[k], op)
    requires Outcome(states[k], op) == Throw(IrError)
    ensures exists i, j, m :: i in op.active && j in op.active && 0 <= m < |states[0].dep.Edge(i, j)|
              && |states[k].dep.Edge(i, j)| == |states[0].dep.Edge(i, j)|
              && Culprit(states[0].dep.Edge(i, j)[m], states[k].dep.Edge(i, j)[m], states[k].numDepDim, op.pi,
                         LowestLevel(op.pi), AllKeepQuasi(ops, k))
  {
    var s, g := states[k], states[0].dep;
    RunKeepsLabels(states, ops, k);
    PermuteLaws.PermuteThrowsIff(s, op.active, op.pi, Ok(op.orders));
    assert PermuteLaws.SomeTurned(s.dep, op.active, s.numDepDim, op.pi, LowestLevel(op.pi));
    var i, j, m :| i in op.active && j in op.active && 0 <= m < |s.dep.Edge(i, j)|
      && PermuteLaws.Turned(s.dep.Edge(i, j)[m], s.numDepDim, op.pi, LowestLevel(op.pi));
    assert LabelsFrom(g.Edge(i, j), s.dep.Edge(i, j), AllKeepQuasi(ops, k));
    assert LabelFrom(g.Edge(i, j)[m], s.dep.Edge(i, j)[m], AllKeepQuasi(ops, k));
  }
}
