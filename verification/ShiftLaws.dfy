/**
 What Loop::shift does, said about distances alone: the amount is added to one level
 of the active schedules and, in the vectors, to every distance whose destination is
 shifted; it is taken from every distance whose source is.
 */
module ShiftLaws {
  import opened Outcomes
  import opened Bounds
  import opened DependenceVectors
  import opened DependenceGraphs
  import opened LoopStates
  import opened LoopSafety

  /** e holds the distances of d, each with k added at dim. */
  ghost predicate VectorShifted(d: DependenceVector, e: DependenceVector, dim: nat, k: int) {
    && d.Valid() && e.Valid() && e.kind == d.kind && e.quasi == d.quasi && e.scalar == d.scalar
    && (!d.IsData() ==> e == d)
    && (d.IsData() ==> forall v {:trigger Added(v, dim, k)} :: dim < |v| ==>
          (e.Contains(Added(v, dim, k)) <==> d.Contains(v)))
  }

  ghost predicate ListShifted(ds: seq<DependenceVector>, es: seq<DependenceVector>, dim: nat, k: int) {
    |es| == |ds| && forall m :: 0 <= m < |ds| ==> VectorShifted(ds[m], es[m], dim, k)
  }

  ghost predicate GraphShifted(g: DependenceGraph, h: DependenceGraph, active: set<int>, dim: nat, amount: int) {
    && h.numDim == g.numDim && |h.vertex| == |g.vertex|
    && forall i, j ::
         && ListShifted(g.Edge(i, j), h.Edge(i, j), dim, AddedBy(amount, i in active, j in active))
         && ((i in active) == (j in active) ==> h.Edge(i, j) == g.Edge(i, j))
  }

  /** The amount is added to one level of the schedule. */
  ghost predicate StatementShifted(s: Statement, t: Statement, level: int, amount: int)
    requires 1 <= level <= |s.xform|
  {
    && t.loopLevel == s.loopLevel && t.order == s.order && |t.xform| == |s.xform|
    && (forall l :: 0 <= l < |s.xform| && l != level - 1 ==> t.xform[l] == s.xform[l])
    && t.xform[level - 1].coefs == s.xform[level - 1].coefs
    && t.xform[level - 1].offset == s.xform[level - 1].offset + amount
  }

  lemma ShiftVectorLaw(d: DependenceVector, dim: nat, k: int)
    requires d.Valid() && (d.IsData() ==> dim < |d.lbounds|)
    ensures VectorShifted(d, ShiftVector(d, dim, k), dim, k)
  {
    var e := ShiftVector(d, dim, k);
    if d.IsData() {
      forall v | dim < |v|
        ensures e.Contains(Added(v, dim, k)) <==> d.Contains(v)
      {
        var w := Added(v, dim, k);
        assert |v| == |d.lbounds| ==> forall l :: 0 <= l < |v| ==>
               (Within(e.lbounds[l], e.ubounds[l], w[l]) <==> Within(d.lbounds[l], d.ubounds[l], v[l]));
      }
    }
  }

  lemma UnshiftedLaw(d: DependenceVector, dim: nat)
    requires d.Valid()
    ensures VectorShifted(d, d, dim, 0)
  {
    forall v: seq<int> | dim < |v|
      ensures Added(v, dim, 0) == v
    {
    }
  }

  lemma ShiftListLaw(ds: seq<DependenceVector>, es: seq<DependenceVector>, dim: nat, k: int, n: nat)
    requires AllFit(ds, n) && dim < n && (es == ShiftList(ds, dim, k) || (k == 0 && es == ds))
    ensures ListShifted(ds, es, dim, k)
  {
    forall m | 0 <= m < |ds|
      ensures VectorShifted(ds[m], es[m], dim, k)
    {
      ShiftVectorLaw(ds[m], dim, k);
      UnshiftedLaw(ds[m], dim);
    }
  }

  lemma ShiftedGraphLaw(g: DependenceGraph, active: set<int>, dim: nat, amount: int, n: nat, h: DependenceGraph)
    requires g.Valid() && g.Fits(n) && dim < n && h == g.Updated(ShiftedEdges(active, dim, amount))
    ensures GraphShifted(g, h, active, dim, amount)
  {
    forall i, j
      ensures ListShifted(g.Edge(i, j), h.Edge(i, j), dim, AddedBy(amount, i in active, j in active))
      ensures (i in active) == (j in active) ==> h.Edge(i, j) == g.Edge(i, j)
    {
      g.EdgeFits(i, j, n);
      ShiftedEdgeOf(g, active, dim, amount, i, j);
      ShiftListLaw(g.Edge(i, j), h.Edge(i, j), dim, AddedBy(amount, i in active, j in active), n);
    }
  }

  /** The arguments shift accepts. */
  ghost predicate Accepted(s: LoopState, active: set<int>, level: int) {
    (forall a :: a in active ==> 0 <= a < |s.stmt|) && 1 <= level <= s.numDepDim
  }

  ghost predicate StatementsShifted(s: LoopState, stmt: seq<Statement>, active: set<int>, level: int, amount: int)
    requires s.Valid() && 1 <= level <= s.numDepDim
  {
    |stmt| == |s.stmt| && forall i :: 0 <= i < |stmt| ==>
      assert s.stmt[i].Valid(s.numDepDim);
      if i in active then StatementShifted(s.stmt[i], stmt[i], level, amount) else stmt[i] == s.stmt[i]
  }

  lemma ShiftedStateLaw(s: LoopState, active: set<int>, level: int, amount: int, t: LoopState)
    requires s.Valid() && 1 <= level <= s.numDepDim && t == ShiftedState(s, active, level, amount)
    ensures t.numDepDim == s.numDepDim && StatementsShifted(s, t.stmt, active, level, amount)
    ensures GraphShifted(s.dep, t.dep, active, level - 1, amount)
  {
    ShiftedGraphLaw(s.dep, active, level - 1, amount, s.numDepDim, t.dep);
    forall i | 0 <= i < |s.stmt|
      ensures |s.stmt[i].xform| == s.numDepDim
    {
      assert s.stmt[i].Valid(s.numDepDim);
    }
  }

  /** shift: rejected arguments, nothing to do, or shifted schedules and graph. */
  lemma ShiftMoves(s: LoopState, active: set<int>, level: int, amount: int, r: Result<LoopState>)
    requires s.Valid() && r == ShiftOutcome(s, active, level, amount)
    ensures if active == {} then r == Ok(s)
            else if !Accepted(s, active, level) then r == Throw(InvalidArgument)
            else if amount == 0 then r == Ok(s)
            else
              && r.Ok? && r.value.numDepDim == s.numDepDim
              && StatementsShifted(s, r.value.stmt, active, level, amount)
              && GraphShifted(s.dep, r.value.dep, active, level - 1, amount)
  {
    if active != {} && amount != 0 && r.Ok? {
      ShiftedStateLaw(s, active, level, amount, r.value);
    }
  }
}
