/**
 What Loop::skew, scale and reverse do, said about weighted sums alone: one level of
 the active schedules becomes the weighted sum of all levels; in a vector between
 two skewed statements the interval of that level becomes the least one that holds
 every sum; with one skewed end nothing is known about the level.
 */
module SkewLaws {
  import opened Outcomes
  import opened Bounds
  import opened Lexicographic
  import opened Lists
  import opened DependenceVectors
  import opened DependenceGraphs
  import opened Affine
  import opened LoopStates
  import opened Loops
  import opened LoopSafety
  import opened LoopFacts

  // ---------- The words the laws use ----------

  ghost predicate AgreeExcept(v: seq<int>, w: seq<int>, dim: nat) {
    |v| == |w| && forall l :: 0 <= l < |v| && l != dim ==> w[l] == v[l]
  }

  /** Some distance of d is zero in all levels before dim. */
  ghost predicate SomeZeroBefore(d: DependenceVector, dim: nat)
    requires d.Valid()
  {
    exists v :: d.Contains(v) && dim <= |v| && ZeroUpTo(v, dim)
  }

  ghost predicate AllSumsPositive(d: DependenceVector, amounts: seq<int>)
    requires d.Valid() && Applicable(amounts, |d.lbounds|)
  {
    forall v :: d.Contains(v) ==> WeightedSum(amounts, v, |amounts|) > 0
  }

  ghost predicate AllSumsNegative(d: DependenceVector, amounts: seq<int>)
    requires d.Valid() && Applicable(amounts, |d.lbounds|)
  {
    forall v :: d.Contains(v) ==> WeightedSum(amounts, v, |amounts|) < 0
  }

  /** lb and ub are the ends of the least interval with every weighted sum over d. */
  ghost predicate LeastInterval(d: DependenceVector, amounts: seq<int>, lb: Bound, ub: Bound)
    requires d.Valid() && Applicable(amounts, |d.lbounds|)
  {
    && (forall v :: d.Contains(v) ==> Within(lb, ub, WeightedSum(amounts, v, |amounts|)))
    && (if lb.Fin? then Attains(d, amounts, lb.v) else forall t :: GoesBelow(d, amounts, t))
    && (if ub.Fin? then Attains(d, amounts, ub.v) else forall t :: GoesAbove(d, amounts, t))
  }

  /** A vector between two skewed statements. */
  ghost predicate VectorSkewed(d: DependenceVector, e: DependenceVector, dim: nat, amounts: seq<int>) {
    && d.Valid() && e.kind == d.kind && e.scalar == d.scalar
    && (!d.IsData() ==> e == d)
    && (d.IsData() ==>
          && dim < |d.lbounds| == |e.lbounds| == |e.ubounds| && Applicable(amounts, |d.lbounds|)
          && LeastInterval(d, amounts, e.lbounds[dim], e.ubounds[dim])
          && (forall l :: 0 <= l < |d.lbounds| && l != dim ==>
                e.lbounds[l] == d.lbounds[l] && e.ubounds[l] == d.ubounds[l])
          && (e.quasi <==> d.quasi && !(SomeZeroBefore(d, dim) && AllSumsPositive(d, amounts))))
  }

  /** A vector with one skewed end. */
  ghost predicate VectorForgotten(d: DependenceVector, e: DependenceVector, dim: nat) {
    && d.Valid() && e.Valid() && e.kind == d.kind && e.quasi == d.quasi && e.scalar == d.scalar
    && (!d.IsData() ==> e == d)
    && (d.IsData() ==> forall w :: e.Contains(w) <==> exists v :: d.Contains(v) && AgreeExcept(v, w, dim))
  }

  /** The list on one edge, by which of its ends are skewed. */
  ghost predicate ListSkewed(ds: seq<DependenceVector>, es: seq<DependenceVector>, dim: nat, amounts: seq<int>,
                             source: bool, destination: bool) {
    && |es| == |ds|
    && (source && destination ==> forall k :: 0 <= k < |ds| ==> VectorSkewed(ds[k], es[k], dim, amounts))
    && (source != destination ==> forall k :: 0 <= k < |ds| ==> VectorForgotten(ds[k], es[k], dim))
    && (!source && !destination ==> es == ds)
  }

  /** The skew of an ordinary vector makes sure that it is violated: skew throws. */
  ghost predicate StopsSkew(d: DependenceVector, dim: nat, amounts: seq<int>) {
    && d.Valid() && d.IsData() && !d.quasi && Applicable(amounts, |d.lbounds|)
    && SomeZeroBefore(d, dim) && AllSumsNegative(d, amounts)
  }

  // ---------- One vector ----------

  /** The sum of amounts[j] * v[j]. */
  lemma {:induction false} WeightedSumIsDot(amounts: seq<int>, v: seq<int>, k: nat)
    requires k <= |amounts| && k <= |v| && Applicable(amounts, |v|)
    ensures WeightedSum(amounts, v, k) == Dot(amounts, v, k)
  {
    if k > 0 {
      WeightedSumIsDot(amounts, v, k - 1);
    }
  }

  lemma SkewIsLeast(d: DependenceVector, amounts: seq<int>, lb: Bound, ub: Bound)
    requires d.Valid() && Applicable(amounts, |d.lbounds|)
    requires lb == SkewLow(d, amounts, |amounts|) && ub == SkewHigh(d, amounts, |amounts|)
    ensures LeastInterval(d, amounts, lb, ub) && Interval(lb, ub)
    ensures AllSumsPositive(d, amounts) <==> lb.AboveZero()
    ensures AllSumsNegative(d, amounts) <==> ub.BelowZero()
  {
    SkewIntervalExact(d, amounts);
    if lb.Fin? {
      var v :| d.Contains(v) && WeightedSum(amounts, v, |amounts|) == lb.v;
    } else {
      assert GoesBelow(d, amounts, 0);
    }
    if ub.Fin? {
      var v :| d.Contains(v) && WeightedSum(amounts, v, |amounts|) == ub.v;
    } else {
      assert GoesAbove(d, amounts, 0);
    }
  }

  lemma ZeroBeforeIff(d: DependenceVector, dim: nat, low: Bound, high: Bound)
    requires d.Valid() && dim < |d.lbounds|
    ensures d.WithInterval(dim, low, high).CarriedWithin(dim, PosInf) <==> SomeZeroBefore(d, dim)
  {
    SkewedPrefix(d, dim, low, high);
  }

  lemma SkewVectorLaw(d: DependenceVector, dim: nat, amounts: seq<int>, e: DependenceVector)
    requires d.Valid() && (d.IsData() ==> dim < |d.lbounds| && Applicable(amounts, |d.lbounds|))
    requires SkewVector(d, dim, amounts) == Ok(e)
    ensures VectorSkewed(d, e, dim, amounts)
  {
    if d.IsData() {
      var low, high := SkewLow(d, amounts, |amounts|), SkewHigh(d, amounts, |amounts|);
      SkewIsLeast(d, amounts, low, high);
      ZeroBeforeIff(d, dim, low, high);
    }
  }

  lemma StopsSkewIff(d: DependenceVector, dim: nat, amounts: seq<int>)
    requires d.Valid() && (d.IsData() ==> dim < |d.lbounds| && Applicable(amounts, |d.lbounds|))
    ensures SkewVector(d, dim, amounts).Throw? <==> StopsSkew(d, dim, amounts)
  {
    if d.IsData() {
      SkewThrowsIff(d, dim, amounts);
    }
  }

  lemma ForgottenLaw(d: DependenceVector, dim: nat)
    requires d.Valid() && (d.IsData() ==> dim < |d.lbounds|)
    ensures VectorForgotten(d, UnknownAt(d, dim), dim)
  {
    var e := UnknownAt(d, dim);
    if d.IsData() {
      forall w
        ensures e.Contains(w) <==> exists v :: d.Contains(v) && AgreeExcept(v, w, dim)
      {
        if e.Contains(w) {
          var v := w[dim := d.NearestMember()[dim]];
          assert d.Contains(v) && AgreeExcept(v, w, dim);
        }
        if v :| d.Contains(v) && AgreeExcept(v, w, dim) {
          assert Within(e.lbounds[dim], e.ubounds[dim], w[dim]);
        }
      }
    }
  }

  // ---------- Lists ----------

  lemma SkewListInPlace(ds: seq<DependenceVector>, dim: nat, amounts: seq<int>, es: seq<DependenceVector>)
    requires SkewList(ds, dim, amounts) == Ok(es)
    ensures |es| == |ds| && forall k :: 0 <= k < |ds| ==> SkewVector(ds[k], dim, amounts) == Ok(es[k])
  {
    FlatMapSingles(ds, SkewedOne(dim, amounts), |ds|);
    forall k | 0 <= k < |ds|
      ensures SkewVector(ds[k], dim, amounts) == Ok(es[k])
    {
      assert SkewedOne(dim, amounts)(ds[k]).Ok?;
    }
  }

  lemma SkewListLaw(ds: seq<DependenceVector>, dim: nat, amounts: seq<int>, n: nat, es: seq<DependenceVector>)
    requires AllFit(ds, n) && dim < n && Applicable(amounts, n) && SkewList(ds, dim, amounts) == Ok(es)
    ensures ListSkewed(ds, es, dim, amounts, true, true)
  {
    SkewListInPlace(ds, dim, amounts, es);
    forall k | 0 <= k < |ds|
      ensures VectorSkewed(ds[k], es[k], dim, amounts)
    {
      SkewVectorLaw(ds[k], dim, amounts, es[k]);
    }
  }

  lemma ForgottenListLaw(ds: seq<DependenceVector>, dim: nat, amounts: seq<int>, n: nat, source: bool)
    requires AllFit(ds, n) && dim < n
    ensures ListSkewed(ds, UnknownAtList(ds, dim), dim, amounts, source, !source)
  {
    forall k | 0 <= k < |ds|
      ensures VectorForgotten(ds[k], UnknownAtList(ds, dim)[k], dim)
    {
      ForgottenLaw(ds[k], dim);
    }
  }

  lemma SkewListStopsIff(ds: seq<DependenceVector>, dim: nat, amounts: seq<int>, n: nat)
    requires AllFit(ds, n) && dim < n && Applicable(amounts, n)
    ensures SkewList(ds, dim, amounts).Throw? <==> exists k :: 0 <= k < |ds| && StopsSkew(ds[k], dim, amounts)
  {
    FlatMapThrows(ds, SkewedOne(dim, amounts), |ds|);
    forall k | 0 <= k < |ds|
      ensures SkewedOne(dim, amounts)(ds[k]).Throw? <==> StopsSkew(ds[k], dim, amounts)
    {
      StopsSkewIff(ds[k], dim, amounts);
    }
  }

  /** What the edge map makes of a list that does not stop the skew. */
  lemma SkewedEdgesLaw(ds: seq<DependenceVector>, active: set<int>, dim: nat, amounts: seq<int>, n: nat, i: int, j: int,
                       es: seq<DependenceVector>)
    requires AllFit(ds, n) && dim < n && Applicable(amounts, n)
    requires i in active && j in active ==> SkewList(ds, dim, amounts).Ok?
    requires es == SkewedEdges(active, dim, amounts)(i, j, ds)
    ensures ListSkewed(ds, es, dim, amounts, i in active, j in active)
  {
    SkewedEdgeList(active, dim, amounts, i, j, ds);
    if i in active && j in active {
      SkewListLaw(ds, dim, amounts, n, es);
    } else if i in active || j in active {
      ForgottenListLaw(ds, dim, amounts, n, i in active);
    }
  }

  // ---------- Graphs ----------

  /** A vector between skewed statements stops the skew. */
  ghost predicate SomeStopsSkew(g: DependenceGraph, active: set<int>, dim: nat, amounts: seq<int>) {
    exists i, j, k :: i in active && j in active && 0 <= k < |g.Edge(i, j)| && StopsSkew(g.Edge(i, j)[k], dim, amounts)
  }

  ghost predicate GraphSkewed(g: DependenceGraph, h: DependenceGraph, active: set<int>, dim: nat, amounts: seq<int>) {
    && h.numDim == g.numDim && |h.vertex| == |g.vertex|
    && forall i, j :: ListSkewed(g.Edge(i, j), h.Edge(i, j), dim, amounts, i in active, j in active)
  }

  lemma SkewRejectsIff(g: DependenceGraph, active: set<int>, dim: nat, amounts: seq<int>, n: nat, stops: bool)
    requires g.Valid() && g.Fits(n) && dim < n && Applicable(amounts, n)
    requires stops == SkewRejects(g, active, dim, amounts)
    ensures stops == SomeStopsSkew(g, active, dim, amounts)
  {
    forall i, j
      ensures SkewList(g.Edge(i, j), dim, amounts).Throw? <==>
              exists k :: 0 <= k < |g.Edge(i, j)| && StopsSkew(g.Edge(i, j)[k], dim, amounts)
    {
      g.EdgeFits(i, j, n);
      SkewListStopsIff(g.Edge(i, j), dim, amounts, n);
    }
  }

  lemma SkewedGraphLaw(g: DependenceGraph, active: set<int>, dim: nat, amounts: seq<int>, n: nat, h: DependenceGraph)
    requires g.Valid() && g.Fits(n) && dim < n && Applicable(amounts, n) && !SkewRejects(g, active, dim, amounts)
    requires h == g.Updated(SkewedEdges(active, dim, amounts))
    ensures GraphSkewed(g, h, active, dim, amounts)
  {
    forall i, j
      ensures ListSkewed(g.Edge(i, j), h.Edge(i, j), dim, amounts, i in active, j in active)
    {
      g.EdgeFits(i, j, n);
      SkewedEdgeOf(g, active, dim, amounts, i, j);
      SkewedEdgeList(active, dim, amounts, i, j, g.Edge(i, j));
      SkewedEdgesLaw(g.Edge(i, j), active, dim, amounts, n, i, j, h.Edge(i, j));
    }
  }

  /** An edge of a graph that is updated in part. */
  lemma PartlyUpdatedEdge(g: DependenceGraph, h: DependenceGraph, f: EdgeMap, done: (int, int) -> bool, i: int, j: int)
    requires g.PartlyUpdated(h, f, done)
    ensures h.Edge(i, j) == g.Edge(i, j) || (0 <= i < |g.vertex| && j in g.vertex[i])
    ensures 0 <= i < |g.vertex| && j in g.vertex[i] ==>
              h.Edge(i, j) == if done(i, j) then f(i, j, g.Edge(i, j)) else g.Edge(i, j)
  {
    if 0 <= i < |g.vertex| {
      assert g.IsUpdatedRow(h.vertex[i], i, f, done);
    }
  }

  /** Edge (i, j) stops the skew: edges of skewed statements visited before it are done, all others are old. */
  ghost predicate StoppedAtEdge(g: DependenceGraph, h: DependenceGraph, active: set<int>, dim: nat, amounts: seq<int>,
                                i: int, j: int) {
    && i in active && j in active && (exists k :: 0 <= k < |g.Edge(i, j)| && StopsSkew(g.Edge(i, j)[k], dim, amounts))
    && h.numDim == g.numDim && |h.vertex| == |g.vertex|
    && forall a, b ::
         if a in active && DependenceGraph.Earlier(a, b, i, j) then
           ListSkewed(g.Edge(a, b), h.Edge(a, b), dim, amounts, true, b in active)
         else
           h.Edge(a, b) == g.Edge(a, b)
  }

  ghost predicate GraphStopped(g: DependenceGraph, h: DependenceGraph, active: set<int>, dim: nat, amounts: seq<int>) {
    exists i, j :: StoppedAtEdge(g, h, active, dim, amounts, i, j)
  }

  lemma DoneBeforeStop(g: DependenceGraph, h: DependenceGraph, active: set<int>, dim: nat, amounts: seq<int>, n: nat,
                       i: nat, j: nat, a: int, b: int)
    requires g.Valid() && g.Fits(n) && dim < n && Applicable(amounts, n)
    requires Loop.StoppedAt(g, h, active, dim, amounts, i, j) && a in active && DependenceGraph.Earlier(a, b, i, j)
    ensures ListSkewed(g.Edge(a, b), h.Edge(a, b), dim, amounts, true, b in active)
  {
    var f := SkewedEdges(active, dim, amounts);
    g.EdgeFits(a, b, n);
    PartlyUpdatedEdge(g, h, f, FromActive(active, i, j), a, b);
    if 0 <= a < |g.vertex| && b in g.vertex[a] {
      assert a < i ==> !Loop.RowRejects(g, active, a, dim, amounts);
      assert b in active ==> SkewList(g.Edge(a, b), dim, amounts).Ok?;
      SkewedEdgesLaw(g.Edge(a, b), active, dim, amounts, n, a, b, h.Edge(a, b));
    } else {
      assert g.Edge(a, b) == [];
    }
  }

  lemma StoppedLaw(g: DependenceGraph, h: DependenceGraph, active: set<int>, dim: nat, amounts: seq<int>, n: nat)
    requires g.Valid() && g.Fits(n) && dim < n && Applicable(amounts, n)
    requires Loop.Stopped(g, h, active, dim, amounts)
    ensures GraphStopped(g, h, active, dim, amounts)
  {
    var i: nat, j: nat :| Loop.StoppedAt(g, h, active, dim, amounts, i, j);
    g.EdgeFits(i, j, n);
    SkewListStopsIff(g.Edge(i, j), dim, amounts, n);
    forall a, b
      ensures if a in active && DependenceGraph.Earlier(a, b, i, j) then
                ListSkewed(g.Edge(a, b), h.Edge(a, b), dim, amounts, true, b in active)
              else
                h.Edge(a, b) == g.Edge(a, b)
    {
      if a in active && DependenceGraph.Earlier(a, b, i, j) {
        DoneBeforeStop(g, h, active, dim, amounts, n, i, j, a, b);
      } else {
        PartlyUpdatedEdge(g, h, SkewedEdges(active, dim, amounts), FromActive(active, i, j), a, b);
      }
    }
    assert StoppedAtEdge(g, h, active, dim, amounts, i, j);
  }

  // ---------- States ----------

  /** One level of the schedule becomes the weighted sum of all levels. */
  ghost predicate StatementSkewed(s: Statement, t: Statement, n: nat, level: int, amounts: seq<int>)
    requires s.Valid(n) && Applicable(amounts, n) && 1 <= level <= n
  {
    && t.loopLevel == s.loopLevel && t.order == s.order && |t.xform| == n && IsMap(t.xform, n)
    && (forall l :: 0 <= l < n && l != level - 1 ==> t.xform[l] == s.xform[l])
    && forall x {:trigger Value(t.xform[level - 1], x)} :: |x| == n ==>
         Value(t.xform[level - 1], x) == WeightedSum(amounts, Image(s.xform, x), |amounts|)
  }

  ghost predicate StatementsSkewed(s: LoopState, stmt: seq<Statement>, active: set<int>, level: int, amounts: seq<int>)
    requires s.Valid() && Applicable(amounts, s.numDepDim) && 1 <= level <= s.numDepDim
  {
    |stmt| == |s.stmt| && forall i :: 0 <= i < |stmt| ==>
      if i in active then StatementSkewed(s.stmt[i], stmt[i], s.numDepDim, level, amounts) else stmt[i] == s.stmt[i]
  }

  lemma StatementLaw(s: Statement, n: nat, level: int, amounts: seq<int>, t: Statement)
    requires s.Valid(n) && Applicable(amounts, n) && 1 <= level <= n && t == SkewedStatement(s, level, amounts, n)
    ensures StatementSkewed(s, t, n, level, amounts)
  {
    var row := Combined(amounts, s.xform, n, |amounts|);
    assert t.xform == s.xform[level - 1 := row];
    forall x {:trigger Value(row, x)} | |x| == n
      ensures Value(row, x) == WeightedSum(amounts, Image(s.xform, x), |amounts|)
    {
      CombinedValue(amounts, s.xform, x, |amounts|);
    }
  }

  lemma StatementsLaw(s: LoopState, active: set<int>, level: int, amounts: seq<int>, t: LoopState)
    requires s.Valid() && Applicable(amounts, s.numDepDim) && 1 <= level <= s.numDepDim
    requires t == SkewedState(s, active, level, amounts)
    ensures StatementsSkewed(s, t.stmt, active, level, amounts)
  {
    forall i | 0 <= i < |s.stmt|
      ensures if i in active then StatementSkewed(s.stmt[i], t.stmt[i], s.numDepDim, level, amounts)
              else t.stmt[i] == s.stmt[i]
    {
      assert s.stmt[i].Valid(s.numDepDim);
      if i in active {
        StatementLaw(s.stmt[i], s.numDepDim, level, amounts, t.stmt[i]);
      }
    }
  }

  lemma SkewedStateLaw(s: LoopState, active: set<int>, level: int, amounts: seq<int>, t: LoopState)
    requires s.Valid() && SkewArguments(s, active, level, amounts) && !SkewRejects(s.dep, active, level - 1, amounts)
    requires t == SkewedState(s, active, level, amounts)
    ensures t.numDepDim == s.numDepDim && StatementsSkewed(s, t.stmt, active, level, amounts)
    ensures GraphSkewed(s.dep, t.dep, active, level - 1, amounts)
  {
    StatementsLaw(s, active, level, amounts, t);
    SkewedGraphLaw(s.dep, active, level - 1, amounts, s.numDepDim, t.dep);
  }

  /** The arguments skew accepts. */
  ghost predicate Accepted(s: LoopState, active: set<int>, level: int, amounts: seq<int>) {
    && (forall a :: a in active ==> 0 <= a < |s.stmt|)
    && 1 <= level <= s.numDepDim
    && forall j :: 0 <= j < |amounts| && amounts[j] != 0 ==> j < s.numDepDim
  }

  lemma AcceptedIff(s: LoopState, active: set<int>, level: int, amounts: seq<int>)
    ensures Accepted(s, active, level, amounts) <==> SkewArguments(s, active, level, amounts)
  {
  }

  lemma SkewVerdict(s: LoopState, active: set<int>, level: int, amounts: seq<int>, r: Result<LoopState>)
    requires active != {} && SkewArguments(s, active, level, amounts) && r == SkewOutcome(s, active, level, amounts)
    ensures r.Throw? == SkewRejects(s.dep, active, level - 1, amounts) && (r.Throw? ==> r == Throw(LoopError))
  {
  }

  lemma SkewChecks(s: LoopState, active: set<int>, level: int, amounts: seq<int>, r: Result<LoopState>)
    requires r == SkewOutcome(s, active, level, amounts)
    ensures active == {} ==> r == Ok(s)
    ensures active != {} && !Accepted(s, active, level, amounts) ==> r == Throw(InvalidArgument)
  {
    AcceptedIff(s, active, level, amounts);
  }

  /** Accepted arguments: skew throws exactly if a vector between skewed statements is violated. */
  lemma SkewThrowsForVector(s: LoopState, active: set<int>, level: int, amounts: seq<int>, r: Result<LoopState>)
    returns (stops: bool)
    requires s.Valid() && active != {} && SkewArguments(s, active, level, amounts)
    requires r == SkewOutcome(s, active, level, amounts)
    ensures stops == SomeStopsSkew(s.dep, active, level - 1, amounts)
    ensures if stops then r == Throw(LoopError) else r.Ok?
  {
    stops := r.Throw?;
    SkewVerdict(s, active, level, amounts, r);
    SkewRejectsIff(s.dep, active, level - 1, amounts, s.numDepDim, stops);
  }

  /** skew throws for its arguments, or because a vector between skewed statements is violated. */
  lemma SkewDecides(s: LoopState, active: set<int>, level: int, amounts: seq<int>, r: Result<LoopState>)
    returns (stops: bool)
    requires s.Valid() && r == SkewOutcome(s, active, level, amounts)
    ensures active == {} ==> r == Ok(s)
    ensures active != {} && !Accepted(s, active, level, amounts) ==> r == Throw(InvalidArgument)
    ensures active != {} && Accepted(s, active, level, amounts) ==>
              && stops == SomeStopsSkew(s.dep, active, level - 1, amounts)
              && if stops then r == Throw(LoopError) else r.Ok?
  {
    SkewChecks(s, active, level, amounts, r);
    AcceptedIff(s, active, level, amounts);
    stops := false;
    if active != {} && SkewArguments(s, active, level, amounts) {
      stops := SkewThrowsForVector(s, active, level, amounts, r);
    }
  }

  /** When skew does not throw, schedules and graph are skewed. */
  lemma SkewMoves(s: LoopState, active: set<int>, level: int, amounts: seq<int>, t: LoopState)
    requires s.Valid() && active != {} && SkewOutcome(s, active, level, amounts) == Ok(t)
    ensures Accepted(s, active, level, amounts) && t.numDepDim == s.numDepDim
    ensures StatementsSkewed(s, t.stmt, active, level, amounts)
    ensures GraphSkewed(s.dep, t.dep, active, level - 1, amounts)
  {
    AcceptedIff(s, active, level, amounts);
    SkewedStateLaw(s, active, level, amounts, t);
  }

  /** What loop_error leaves behind: all schedules are skewed, the graph up to the edge that stops. */
  lemma SkewStopped(s: LoopState, active: set<int>, level: int, amounts: seq<int>, t: LoopState)
    requires s.Valid() && Accepted(s, active, level, amounts) && t.numDepDim == s.numDepDim
    requires t.stmt == SkewedState(s, active, level, amounts).stmt
    requires Loop.Stopped(s.dep, t.dep, active, level - 1, amounts)
    ensures StatementsSkewed(s, t.stmt, active, level, amounts)
    ensures GraphStopped(s.dep, t.dep, active, level - 1, amounts)
  {
    StatementsLaw(s, active, level, amounts, t.(dep := SkewedState(s, active, level, amounts).dep));
    StoppedLaw(s.dep, t.dep, active, level - 1, amounts, s.numDepDim);
  }

  // ---------- scale and reverse ----------

  lemma {:induction false} ZeroAmounts(amounts: seq<int>, v: seq<int>, k: nat)
    requires k <= |amounts| && Applicable(amounts, |v|) && forall j :: 0 <= j < k ==> amounts[j] == 0
    ensures WeightedSum(amounts, v, k) == 0
  {
    if k > 0 {
      ZeroAmounts(amounts, v, k - 1);
    }
  }

  /** The weighted sum of scale is the amount times its own level: for reverse, the level negated. */
  lemma ScaledSum(level: int, amount: int, v: seq<int>)
    requires 1 <= level <= |v|
    ensures var amounts := ScaleAmounts(level, amount);
            Applicable(amounts, |v|) && WeightedSum(amounts, v, |amounts|) == amount * v[level - 1]
  {
    var amounts := ScaleAmounts(level, amount);
    ZeroAmounts(amounts, v, level - 1);
  }

  /** scale multiplies its level of the schedule by the amount. */
  lemma ScaleMoves(s: Statement, t: Statement, n: nat, level: int, amount: int, x: seq<int>)
    requires s.Valid(n) && 1 <= level <= n && |x| == n && Applicable(ScaleAmounts(level, amount), n)
    requires StatementSkewed(s, t, n, level, ScaleAmounts(level, amount))
    ensures Value(t.xform[level - 1], x) == amount * Value(s.xform[level - 1], x)
  {
    ScaledSum(level, amount, Image(s.xform, x));
  }

  /** The lower end is below exactly what some sum goes below, the upper end above what some sum goes above. */
  lemma LeastIff(d: DependenceVector, amounts: seq<int>, lb: Bound, ub: Bound, t: int)
    requires d.Valid() && Applicable(amounts, |d.lbounds|) && LeastInterval(d, amounts, lb, ub)
    ensures !lb.PosInf? && !ub.NegInf?
    ensures lb.AtMost(t) <==> GoesBelow(d, amounts, t)
    ensures ub.AtLeast(t) <==> GoesAbove(d, amounts, t)
  {
    assert d.Contains(d.NearestMember());
  }

  lemma SameEnds(lb: Bound, low: Bound, ub: Bound, high: Bound)
    requires !lb.PosInf? && !low.PosInf? && !ub.NegInf? && !high.NegInf?
    requires forall t :: lb.AtMost(t) <==> low.AtMost(t)
    requires forall t :: ub.AtLeast(t) <==> high.AtLeast(t)
    ensures lb == low && ub == high
  {
    var a, b := if lb.Fin? then lb.v else 0, if low.Fin? then low.v else 0;
    assert lb.AtMost(a - 1) == low.AtMost(a - 1) && lb.AtMost(b - 1) == low.AtMost(b - 1);
    assert lb.AtMost(a) == low.AtMost(a) && lb.AtMost(b) == low.AtMost(b);
    var x, y := if ub.Fin? then ub.v else 0, if high.Fin? then high.v else 0;
    assert ub.AtLeast(x + 1) == high.AtLeast(x + 1) && ub.AtLeast(y + 1) == high.AtLeast(y + 1);
    assert ub.AtLeast(x) == high.AtLeast(x) && ub.AtLeast(y) == high.AtLeast(y);
  }

  /** There is one least interval. */
  lemma LeastIsUnique(d: DependenceVector, amounts: seq<int>, lb: Bound, ub: Bound, low: Bound, high: Bound)
    requires d.Valid() && Applicable(amounts, |d.lbounds|)
    requires LeastInterval(d, amounts, lb, ub) && LeastInterval(d, amounts, low, high)
    ensures lb == low && ub == high
  {
    forall t
      ensures lb.AtMost(t) <==> low.AtMost(t)
      ensures ub.AtLeast(t) <==> high.AtLeast(t)
    {
      LeastIff(d, amounts, lb, ub, t);
      LeastIff(d, amounts, low, high, t);
    }
    LeastIff(d, amounts, lb, ub, 0);
    LeastIff(d, amounts, low, high, 0);
    SameEnds(lb, low, ub, high);
  }

  lemma MirroredMember(d: DependenceVector, amounts: seq<int>, level: int, x: int)
    requires d.Valid() && 1 <= level <= |d.lbounds| && amounts == ScaleAmounts(level, -1)
    requires Applicable(amounts, |d.lbounds|) && Within(d.lbounds[level - 1], d.ubounds[level - 1], x)
    ensures Attains(d, amounts, -x)
  {
    var v := d.NearestMember()[level - 1 := x];
    ScaledSum(level, -1, v);
    assert d.Contains(v);
  }

  lemma MirroredIsLeast(d: DependenceVector, amounts: seq<int>, level: int)
    requires d.Valid() && 1 <= level <= |d.lbounds| && amounts == ScaleAmounts(level, -1)
    requires Applicable(amounts, |d.lbounds|)
    ensures LeastInterval(d, amounts, d.ubounds[level - 1].Negated(), d.lbounds[level - 1].Negated())
  {
    var lb, ub := d.lbounds[level - 1], d.ubounds[level - 1];
    forall v | |v| == |d.lbounds|
      ensures WeightedSum(amounts, v, |amounts|) == -v[level - 1]
    {
      ScaledSum(level, -1, v);
    }
    if ub.Fin? {
      MirroredMember(d, amounts, level, ub.v);
    }
    if lb.Fin? {
      MirroredMember(d, amounts, level, lb.v);
    }
    forall t | ub.PosInf?
      ensures GoesBelow(d, amounts, t)
    {
      MirroredMember(d, amounts, level, if lb.AtMost(-t) then -t else lb.v);
    }
    forall t | lb.NegInf?
      ensures GoesAbove(d, amounts, t)
    {
      MirroredMember(d, amounts, level, if ub.AtLeast(-t) then -t else ub.v);
    }
  }

  /** reverse mirrors its level: the new vector holds exactly the mirrored distances. */
  lemma ReverseMirrors(d: DependenceVector, e: DependenceVector, level: int, w: seq<int>)
    requires 1 <= level && d.IsData() && VectorSkewed(d, e, level - 1, ScaleAmounts(level, -1))
    requires |w| == |d.lbounds|
    ensures e.Valid() && (e.Contains(w) <==> d.Contains(w[level - 1 := -w[level - 1]]))
  {
    var amounts, dim := ScaleAmounts(level, -1), level - 1;
    MirroredIsLeast(d, amounts, level);
    LeastIsUnique(d, amounts, e.lbounds[dim], e.ubounds[dim], d.ubounds[dim].Negated(), d.lbounds[dim].Negated());
    var v := w[dim := -w[dim]];
    assert forall l :: 0 <= l < |w| ==>
                         (Within(e.lbounds[l], e.ubounds[l], w[l]) <==> Within(d.lbounds[l], d.ubounds[l], v[l]));
  }
}
