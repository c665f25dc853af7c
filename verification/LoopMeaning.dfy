/**
 What the dependence graph is for: a transformation it accepts computes the same
 memory. The nest has one statement; its instances run in the lexicographic order
 of their scheduled iteration vectors (chill/loop.hh:18-34).
 */
module LoopMeaning {
  import opened Outcomes
  import opened Lexicographic
  import opened Permutations
  import opened Lists
  import opened DependenceVectors
  import opened DependenceGraphs
  import opened LoopStates
  import opened LoopSafety
  import opened Execution

  type Instance = seq<int>

  ghost function Pair(x: Instance, y: Instance): Dependence {
    Dependence(0, x, 0, y)
  }

  ghost predicate OneStatement(s: LoopState) {
    s.Valid() && |s.stmt| == 1
  }

  /** The instances in the order the schedule runs them. */
  ghost predicate RunsInOrder(s: LoopState, order: seq<Instance>)
    requires OneStatement(s)
  {
    && (forall p :: 0 <= p < |order| ==> |order[p]| == s.numDepDim)
    && forall p, q :: 0 <= p < q < |order| ==> LexPositive(Distance(s, Pair(order[p], order[q])))
  }

  /** d is an ordinary data dependence: permute's legality test applies to it. */
  ghost predicate Ordinary(d: DependenceVector) {
    d.IsData() && !d.quasi && !d.scalar
  }

  /** An ordinary vector on the edge admits the distance of the pair. */
  ghost predicate OrdinaryCovered(s: LoopState, p: Dependence)
    requires s.Valid()
  {
    InSpace(s, p) && OrdinaryAdmits(s.dep.Edge(p.src, p.dst), Distance(s, p))
  }

  ghost predicate OrdinaryAdmits(ds: seq<DependenceVector>, v: seq<int>) {
    exists k :: 0 <= k < |ds| && Ordinary(ds[k]) && Admits(ds[k], v)
  }

  ghost predicate ConflictsCovered(s: LoopState, b: Body<Instance>, order: seq<Instance>)
    requires OneStatement(s)
  {
    forall x, y :: Precedes(order, x, y) && Conflict(b, x, y) ==> Covered(s, Pair(x, y))
  }

  ghost predicate ConflictsOrdinarilyCovered(s: LoopState, b: Body<Instance>, order: seq<Instance>)
    requires OneStatement(s)
  {
    forall x, y :: Precedes(order, x, y) && Conflict(b, x, y) ==> OrdinaryCovered(s, Pair(x, y))
  }

  // ---------- From positive distances to equal memories ----------

  lemma OppositeDistances(s: LoopState, x: Instance, y: Instance)
    requires OneStatement(s) && |x| == |y| == s.numDepDim
    requires LexPositive(Distance(s, Pair(x, y)))
    ensures !LexPositive(Distance(s, Pair(y, x))) && x != y
  {
    var v, w := Distance(s, Pair(x, y)), Distance(s, Pair(y, x));
    var k :| PositiveAt(v, k);
    assert NegativeAt(w, k);
    Trichotomy(w);
  }

  lemma RunsInOrderHasNoRepeats(s: LoopState, order: seq<Instance>)
    requires OneStatement(s) && RunsInOrder(s, order)
    ensures NoRepeats(order)
  {
    forall p, q | 0 <= p < q < |order|
      ensures order[p] != order[q]
    {
      OppositeDistances(s, order[p], order[q]);
    }
  }

  /** A pair with a positive scheduled distance is run in that order. */
  lemma PositiveMeansPrecedes(s: LoopState, order: seq<Instance>, x: Instance, y: Instance)
    requires OneStatement(s) && RunsInOrder(s, order)
    requires x in order && y in order && |x| == |y| == s.numDepDim && LexPositive(Distance(s, Pair(x, y)))
    ensures Precedes(order, x, y)
  {
    OppositeDistances(s, x, y);
    var p :| 0 <= p < |order| && order[p] == x;
    var q :| 0 <= q < |order| && order[q] == y;
    assert p != q;
  }

  /** If the new schedule keeps every conflicting pair in order, both schedules leave the same memory. */
  lemma OrderKeptMemoryKept(s: LoopState, t: LoopState, b: Body<Instance>, before: seq<Instance>, after: seq<Instance>,
                            m: Memory)
    requires OneStatement(s) && OneStatement(t) && s.numDepDim == t.numDepDim
    requires RunsInOrder(s, before) && RunsInOrder(t, after) && SameElements(before, after)
    requires forall x, y :: Precedes(before, x, y) && Conflict(b, x, y) ==>
                              |x| == |y| == t.numDepDim && LexPositive(Distance(t, Pair(x, y)))
    ensures Run(b, before, m) == Run(b, after, m)
  {
    RunsInOrderHasNoRepeats(s, before);
    RunsInOrderHasNoRepeats(t, after);
    forall x, y | Precedes(before, x, y) && Conflict(b, x, y)
      ensures Precedes(after, x, y)
    {
      assert x in before && y in before;
      PositiveMeansPrecedes(t, after, x, y);
    }
    AgreeingOrdersGiveSameMemory(b, before, after, m);
  }

  lemma PrecedesIsPositive(s: LoopState, order: seq<Instance>, x: Instance, y: Instance)
    requires OneStatement(s) && RunsInOrder(s, order) && Precedes(order, x, y)
    ensures |x| == |y| == s.numDepDim && LexPositive(Distance(s, Pair(x, y)))
  {
  }

  // ---------- permute ----------

  /** Rearranging a positive vector never gives zero; if it does not give a negative one it gives a positive one. */
  lemma RearrangedSign(v: seq<int>, p: seq<int>)
    requires IsPermutation(p, |v|) && LexPositive(v) && !LexNegative(Rearranged(v, p))
    ensures LexPositive(Rearranged(v, p))
  {
    var w := Rearranged(v, p);
    var k: nat :| PositiveAt(v, k);
    assert k in p;
    var i := PositionOf(p, k);
    assert w[i] == v[k] > 0;
    Trichotomy(w);
  }

  /** On an accepted edge, an ordinarily admitted distance stays admitted and is never turned around. */
  lemma AcceptedEdge(g: DependenceGraph, p: seq<int>, active: set<int>, i: int, j: int, v: seq<int>)
    requires g.Valid() && g.Fits(|p|) && InRange(p, |p|) && g.PermuteResult(p, active).Ok?
    requires i in active && j in active && |v| == |p| && OrdinaryAdmits(g.Edge(i, j), v)
    ensures !LexNegative(Rearranged(v, p))
    ensures OrdinaryAdmits(g.Mapped(g.numDim, StoredEdges(p, active)).Edge(i, j), Rearranged(v, p))
  {
    var ds, w := g.Edge(i, j), Rearranged(v, p);
    var k :| 0 <= k < |ds| && Ordinary(ds[k]) && Admits(ds[k], v);
    g.EdgeFits(i, j, |p|);
    var e := ds[k].Permuted(p);
    assert e.Contains(w);
    g.MappedEdge(g.numDim, StoredEdges(p, active), i, j);
    var es := g.Mapped(g.numDim, StoredEdges(p, active)).Edge(i, j);
    assert es[k] == e && Ordinary(e) && Admits(e, w);
    NothingViolates(g, p, active, i, j, k);
  }

  lemma NothingViolates(g: DependenceGraph, p: seq<int>, active: set<int>, i: int, j: int, k: nat)
    requires g.Valid() && g.Fits(|p|) && InRange(p, |p|) && g.PermuteResult(p, active).Ok?
    requires i in active && j in active && k < |g.Edge(i, j)|
    ensures g.Edge(i, j)[k].Valid() && |g.Edge(i, j)[k].lbounds| == |p| && !Violates(g.Edge(i, j)[k], p)
  {
    g.EdgeIsValid(i, j);
    GraphPermuteRejects(g, p, active);
    assert !SomeRejected(g.Edge(i, j), p);
    assert !Rejected(g.Edge(i, j)[k], p);
  }

  /** One accepted permutation keeps an ordinarily covered pair covered and in order. */
  lemma PermuteKeepsPair(s: LoopState, active: set<int>, pi: seq<int>, orders: seq<seq<int>>, x: Instance, y: Instance)
    requires OneStatement(s) && Allowed(s, PermuteOp(active, pi, orders))
    requires PermuteOutcome(s, active, pi, Ok(orders)).Ok? && active != {} && pi != []
    requires OrdinaryCovered(s, Pair(x, y)) && LexPositive(Distance(s, Pair(x, y)))
    ensures var t := PermuteOutcome(s, active, pi, Ok(orders)).value;
            OneStatement(t) && t.numDepDim == s.numDepDim
            && OrdinaryCovered(t, Pair(x, y)) && LexPositive(Distance(t, Pair(x, y)))
  {
    var t, perm := PermutedState(s, active, pi, orders), DependencePermutation(pi, LowestLevel(pi), s.numDepDim);
    PermuteOpIsValid(s, active, pi, orders);
    OnlyStatement(s, active);
    PermutedPairDistance(s, active, pi, orders, x, y);
    var v := Distance(s, Pair(x, y));
    AcceptedEdge(s.dep, perm, active, 0, 0, v);
    assert IsPermutation(perm, |v|) by { DependencePermutationIsPermutation(pi, LowestLevel(pi), s.numDepDim); }
    RearrangedSign(v, perm);
  }

  lemma OnlyStatement(s: LoopState, active: set<int>)
    requires |s.stmt| == 1 && active != {} && s.InStatements(active)
    ensures 0 in active
  {
    var a := SomeMember(active);
  }

  lemma PermutedPairDistance(s: LoopState, active: set<int>, pi: seq<int>, orders: seq<seq<int>>, x: Instance,
                             y: Instance)
    requires OneStatement(s) && 0 in active && |x| == |y| == s.numDepDim
    requires PermutesLevels(pi) && LowestLevel(pi) + |pi| - 1 <= s.numDepDim
    requires OrdersFit(s, orders)
    ensures var perm := DependencePermutation(pi, LowestLevel(pi), s.numDepDim);
            PermutedState(s, active, pi, orders).Valid() && InRange(perm, s.numDepDim)
            && Distance(PermutedState(s, active, pi, orders), Pair(x, y)) == Rearranged(Distance(s, Pair(x, y)), perm)
  {
    var t := PermutedState(s, active, pi, orders);
    PermutedSchedule(s, active, pi, orders, 0, x);
    PermutedSchedule(s, active, pi, orders, 0, y);
    DifferenceMoved(Scheduled(s, 0, y), Scheduled(s, 0, x), Scheduled(t, 0, y), Scheduled(t, 0, x),
                    DependencePermutation(pi, LowestLevel(pi), s.numDepDim), true, true);
  }

  /**
   Meaning preservation: when permute does not throw, the permuted nest leaves the
   memory the original nest leaves, provided ordinary vectors cover its conflicts.
   */
  lemma PermutePreservesMemory(s: LoopState, active: set<int>, pi: seq<int>, orders: seq<seq<int>>,
                               b: Body<Instance>, before: seq<Instance>, after: seq<Instance>, m: Memory)
    requires OneStatement(s) && Allowed(s, PermuteOp(active, pi, orders))
    requires PermuteOutcome(s, active, pi, Ok(orders)).Ok?
    requires RunsInOrder(s, before) && ConflictsOrdinarilyCovered(s, b, before)
    ensures OneStatement(PermuteOutcome(s, active, pi, Ok(orders)).value)
    ensures RunsInOrder(PermuteOutcome(s, active, pi, Ok(orders)).value, after) && SameElements(before, after) ==>
              Run(b, before, m) == Run(b, after, m)
  {
    var t := PermuteOutcome(s, active, pi, Ok(orders)).value;
    PermuteOpIsValid(s, active, pi, orders);
    forall x, y | Precedes(before, x, y) && Conflict(b, x, y)
      ensures |x| == |y| == t.numDepDim && LexPositive(Distance(t, Pair(x, y)))
    {
      PrecedesIsPositive(s, before, x, y);
      if active != {} && pi != [] {
        PermuteKeepsPair(s, active, pi, orders, x, y);
      }
    }
    if RunsInOrder(t, after) && SameElements(before, after) {
      OrderKeptMemoryKept(s, t, b, before, after, m);
    }
  }

  // ---------- The permuted order exists ----------

  lemma PositiveSum(a: seq<int>, b: seq<int>, c: seq<int>)
    requires |a| == |b| == |c| && LexBefore(a, b) && LexBefore(b, c)
    ensures LexBefore(a, c)
  {
    var d, e := Difference(b, a), Difference(c, b);
    var j: nat :| PositiveAt(d, j);
    var k: nat :| PositiveAt(e, k);
    var f := Difference(c, a);
    assert forall i :: 0 <= i < |a| ==> f[i] == d[i] + e[i];
    assert PositiveAt(f, if j < k then j else k);
  }

  ghost predicate Runs(t: LoopState, x: Instance, y: Instance)
    requires OneStatement(t)
  {
    |x| == |y| == t.numDepDim && LexBefore(Scheduled(t, 0, x), Scheduled(t, 0, y))
  }

  ghost function RunsBefore(t: LoopState): (Instance, Instance) -> bool
    requires OneStatement(t)
  {
    (x: Instance, y: Instance) => Runs(t, x, y)
  }

  lemma RunsBeforeTransitive(t: LoopState)
    requires OneStatement(t)
    ensures Transitive(RunsBefore(t))
  {
    forall x, y, z | Runs(t, x, y) && Runs(t, y, z)
      ensures Runs(t, x, z)
    {
      PositiveSum(Scheduled(t, 0, x), Scheduled(t, 0, y), Scheduled(t, 0, z));
    }
  }

  /** The permuted schedule does order the instances, so PermutePreservesMemory speaks about a run that exists. */
  lemma PermutedOrderExists(s: LoopState, active: set<int>, pi: seq<int>, orders: seq<seq<int>>, before: seq<Instance>)
    returns (after: seq<Instance>)
    requires OneStatement(s) && Allowed(s, PermuteOp(active, pi, orders))
    requires PermuteOutcome(s, active, pi, Ok(orders)).Ok? && RunsInOrder(s, before)
    ensures OneStatement(PermuteOutcome(s, active, pi, Ok(orders)).value)
    ensures RunsInOrder(PermuteOutcome(s, active, pi, Ok(orders)).value, after) && SameElements(before, after)
  {
    var t := PermuteOutcome(s, active, pi, Ok(orders)).value;
    PermuteOpIsValid(s, active, pi, orders);
    if active == {} || pi == [] {
      after := before;
    } else {
      OnlyStatement(s, active);
      forall p, q | 0 <= p < q < |before|
        ensures Runs(t, before[p], before[q]) || Runs(t, before[q], before[p])
      {
        PermutedPairDiffers(s, active, pi, orders, before[p], before[q]);
      }
      RunsBeforeTransitive(t);
      after := OrderExists(before, RunsBefore(t));
      OrderedRuns(t, before, after);
    }
  }

  lemma OrderedRuns(t: LoopState, before: seq<Instance>, after: seq<Instance>)
    requires OneStatement(t) && (forall p :: 0 <= p < |before| ==> |before[p]| == t.numDepDim)
    requires OrderedBy(after, RunsBefore(t)) && SameElements(before, after)
    ensures RunsInOrder(t, after)
  {
    forall p | 0 <= p < |after|
      ensures |after[p]| == t.numDepDim
    {
      assert after[p] in before;
    }
    forall p, q | 0 <= p < q < |after|
      ensures LexPositive(Distance(t, Pair(after[p], after[q])))
    {
      assert RunsBefore(t)(after[p], after[q]);
    }
  }

  lemma PermutedPairDiffers(s: LoopState, active: set<int>, pi: seq<int>, orders: seq<seq<int>>, x: Instance,
                            y: Instance)
    requires OneStatement(s) && 0 in active && |x| == |y| == s.numDepDim && LexPositive(Distance(s, Pair(x, y)))
    requires PermutesLevels(pi) && LowestLevel(pi) + |pi| - 1 <= s.numDepDim
    requires OrdersFit(s, orders)
    ensures var t := PermutedState(s, active, pi, orders);
            OneStatement(t) && (Runs(t, x, y) || Runs(t, y, x))
  {
    var t, perm := PermutedState(s, active, pi, orders), DependencePermutation(pi, LowestLevel(pi), s.numDepDim);
    PermutedPairDistance(s, active, pi, orders, x, y);
    DependencePermutationIsPermutation(pi, LowestLevel(pi), s.numDepDim);
    var v, w := Distance(s, Pair(x, y)), Distance(t, Pair(x, y));
    if LexNegative(w) {
      var k: nat :| NegativeAt(w, k);
      assert PositiveAt(Distance(t, Pair(y, x)), k);
    } else {
      RearrangedSign(v, perm);
    }
  }

  // ---------- Runs ----------

  lemma {:induction false} PermuteRunKeepsPair(states: seq<LoopState>, ops: seq<Op>, k: nat, x: Instance, y: Instance)
    requires IsRun(states, ops) && k <= |ops| && (forall i :: 0 <= i < |ops| ==> ops[i].PermuteOp?)
    requires OneStatement(states[0])
    requires OrdinaryCovered(states[0], Pair(x, y)) && LexPositive(Distance(states[0], Pair(x, y)))
    ensures OneStatement(states[k]) && states[k].numDepDim == states[0].numDepDim
    ensures OrdinaryCovered(states[k], Pair(x, y)) && LexPositive(Distance(states[k], Pair(x, y)))
  {
    if k > 0 {
      PermuteRunKeepsPair(states, ops, k - 1, x, y);
      assert IsStep(states[k - 1], ops[k - 1], states[k]);
      var PermuteOp(active, pi, orders) := ops[k - 1];
      PermuteOpIsValid(states[k - 1], active, pi, orders);
      if active != {} && pi != [] {
        PermuteKeepsPair(states[k - 1], active, pi, orders, x, y);
      }
    }
  }

  lemma {:induction false} RunKeepsShape(states: seq<LoopState>, ops: seq<Op>, k: nat)
    requires IsRun(states, ops) && k <= |ops| && OneStatement(states[0])
    ensures OneStatement(states[k]) && states[k].numDepDim == states[0].numDepDim
  {
    if k > 0 {
      RunKeepsShape(states, ops, k - 1);
      assert IsStep(states[k - 1], ops[k - 1], states[k]);
      StepIsValid(states[k - 1], ops[k - 1]);
    }
  }

  /** Any run of permutations that does not throw preserves the memory. */
  lemma PermuteRunPreservesMemory(states: seq<LoopState>, ops: seq<Op>, b: Body<Instance>,
                                  before: seq<Instance>, after: seq<Instance>, m: Memory)
    requires IsRun(states, ops) && (forall i :: 0 <= i < |ops| ==> ops[i].PermuteOp?)
    requires OneStatement(states[0]) && RunsInOrder(states[0], before)
             && ConflictsOrdinarilyCovered(states[0], b, before)
    ensures OneStatement(states[|ops|])
    ensures RunsInOrder(states[|ops|], after) && SameElements(before, after) ==> Run(b, before, m) == Run(b, after, m)
  {
    RunKeepsShape(states, ops, |ops|);
    forall x, y | Precedes(before, x, y) && Conflict(b, x, y)
      ensures |x| == |y| == states[|ops|].numDepDim && LexPositive(Distance(states[|ops|], Pair(x, y)))
    {
      PrecedesIsPositive(states[0], before, x, y);
      PermuteRunKeepsPair(states, ops, |ops|, x, y);
    }
    if RunsInOrder(states[|ops|], after) && SameElements(before, after) {
      OrderKeptMemoryKept(states[0], states[|ops|], b, before, after, m);
    }
  }

  /**
   Such a run ends with a schedule that does order the instances, so
   PermuteRunPreservesMemory speaks about an order that exists.
   */
  lemma {:induction false} PermuteRunOrderExists(states: seq<LoopState>, ops: seq<Op>, k: nat, before: seq<Instance>)
    returns (after: seq<Instance>)
    requires IsRun(states, ops) && k <= |ops| && (forall i :: 0 <= i < |ops| ==> ops[i].PermuteOp?)
    requires OneStatement(states[0]) && RunsInOrder(states[0], before)
    ensures OneStatement(states[k]) && RunsInOrder(states[k], after) && SameElements(before, after)
  {
    if k == 0 {
      after := before;
    } else {
      var middle := PermuteRunOrderExists(states, ops, k - 1, before);
      assert IsStep(states[k - 1], ops[k - 1], states[k]);
      var PermuteOp(active, pi, orders) := ops[k - 1];
      after := PermutedOrderExists(states[k - 1], active, pi, orders, middle);
    }
  }

  /** No data vector on the statement's edge admits a negative distance. */
  ghost predicate FinallyLegal(t: LoopState)
    requires OneStatement(t)
  {
    forall k :: 0 <= k < |t.dep.Edge(0, 0)| ==>
                  var d := t.dep.Edge(0, 0)[k]; d.Valid() && (d.IsData() ==> !d.HasLexNegative())
  }

  /**
   Any run of permute, skew, scale, reverse and shift that does not throw preserves
   the memory if the graph it ends with is free of negative distances, which is the
   test canPermute makes with the identity.
   */
  lemma LegalRunPreservesMemory(states: seq<LoopState>, ops: seq<Op>, b: Body<Instance>,
                                before: seq<Instance>, after: seq<Instance>, m: Memory)
    requires IsRun(states, ops) && OneStatement(states[0])
    requires RunsInOrder(states[0], before) && ConflictsCovered(states[0], b, before)
    ensures OneStatement(states[|ops|])
    ensures FinallyLegal(states[|ops|]) && RunsInOrder(states[|ops|], after) && SameElements(before, after) ==>
              Run(b, before, m) == Run(b, after, m)
  {
    RunKeepsShape(states, ops, |ops|);
    var t := states[|ops|];
    if FinallyLegal(t) && RunsInOrder(t, after) && SameElements(before, after) {
      forall x, y | Precedes(before, x, y) && Conflict(b, x, y)
        ensures |x| == |y| == t.numDepDim && LexPositive(Distance(t, Pair(x, y)))
      {
        PrecedesIsPositive(states[0], before, x, y);
        RunKeepsCovered(states, ops, |ops|, Pair(x, y));
        OppositeDistances(states[0], x, y);
        DistinctInOrder(t, after, x, y);
        LegalDistance(t, x, y);
      }
      OrderKeptMemoryKept(states[0], t, b, before, after, m);
    }
  }

  /** Distinct instances of an order have a positive distance one way round. */
  lemma DistinctInOrder(t: LoopState, order: seq<Instance>, x: Instance, y: Instance)
    requires OneStatement(t) && RunsInOrder(t, order) && x in order && y in order && x != y
    ensures |x| == |y| == t.numDepDim
    ensures LexPositive(Distance(t, Pair(x, y))) || LexPositive(Distance(t, Pair(y, x)))
  {
    var p :| 0 <= p < |order| && order[p] == x;
    var q :| 0 <= q < |order| && order[q] == y;
    assert p < q || q < p;
  }

  lemma LegalDistance(t: LoopState, x: Instance, y: Instance)
    requires OneStatement(t) && FinallyLegal(t) && Covered(t, Pair(x, y))
    ensures !LexNegative(Distance(t, Pair(x, y)))
    ensures LexPositive(Distance(t, Pair(y, x))) ==> LexNegative(Distance(t, Pair(x, y)))
  {
    var v, w := Distance(t, Pair(x, y)), Distance(t, Pair(y, x));
    var k :| 0 <= k < |t.dep.Edge(0, 0)| && Admits(t.dep.Edge(0, 0)[k], v);
    assert !t.dep.Edge(0, 0)[k].HasLexNegative();
    if LexPositive(w) {
      var i :| PositiveAt(w, i);
      assert NegativeAt(v, i);
    }
  }
}
