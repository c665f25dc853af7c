/**
 The graph stays a safe account of the dependences: after any run of
 transformations that does not throw, the distance between the transformed
 instances of every originally dependent pair is in some box on the pair's edge.
 */
module LoopSafety {
  import opened Outcomes
  import opened Lexicographic
  import opened Permutations
  import opened Lists
  import opened DependenceVectors
  import opened DependenceGraphs
  import opened Affine
  import opened LoopStates

  /** Instance y of statement dst depends on instance x of statement src. */
  datatype Dependence = Dependence(src: nat, x: seq<int>, dst: nat, y: seq<int>)

  ghost predicate InSpace(s: LoopState, p: Dependence) {
    p.src < |s.stmt| && p.dst < |s.stmt| && |p.x| == |p.y| == s.numDepDim
  }

  /** Where the schedule runs instance x of statement i. */
  ghost function Scheduled(s: LoopState, i: nat, x: seq<int>): (v: seq<int>)
    requires s.Valid() && i < |s.stmt| && |x| == s.numDepDim
    ensures |v| == s.numDepDim
  {
    assert s.stmt[i].Valid(s.numDepDim);
    Image(s.stmt[i].xform, x)
  }

  ghost function Distance(s: LoopState, p: Dependence): (v: seq<int>)
    requires s.Valid() && InSpace(s, p)
    ensures |v| == s.numDepDim
  {
    Difference(Scheduled(s, p.dst, p.y), Scheduled(s, p.src, p.x))
  }

  /** d is a data dependence that admits the distance v. */
  ghost predicate Admits(d: DependenceVector, v: seq<int>) {
    d.Valid() && d.IsData() && d.Contains(v)
  }

  ghost predicate Covered(s: LoopState, p: Dependence)
    requires s.Valid()
  {
    InSpace(s, p) && ListAdmits(s.dep.Edge(p.src, p.dst), Distance(s, p))
  }

  ghost predicate ListAdmits(ds: seq<DependenceVector>, v: seq<int>) {
    exists k :: 0 <= k < |ds| && Admits(ds[k], v)
  }

  // ---------- permute ----------

  lemma StoredFits(ds: seq<DependenceVector>, p: seq<int>)
    requires AllFit(ds, |p|) && InRange(p, |p|)
    ensures AllFit(StoredList(ds, p), |p|) && AllFit(JumbledDataList(ds, p), |p|)
  {
    forall k | 0 <= k < |ds|
      ensures StoredVector(ds[k], p).Valid() && |StoredVector(ds[k], p).lbounds| == |ds[k].lbounds|
      ensures JumbledVector(ds[k], p).Valid() && |JumbledVector(ds[k], p).lbounds| == |ds[k].lbounds|
    {
    }
  }

  lemma StoredGraphIsValid(g: DependenceGraph, p: seq<int>, active: set<int>)
    requires g.Valid() && g.Fits(|p|) && InRange(p, |p|)
    ensures g.Mapped(g.numDim, StoredEdges(p, active)).Valid() && g.Mapped(g.numDim, StoredEdges(p, active)).Fits(|p|)
  {
    var f := StoredEdges(p, active);
    forall i: nat, j: int | i < |g.vertex| && j in g.vertex[i]
      ensures AllFit(f(i, j, g.vertex[i][j]), |p|)
    {
      g.EdgeIsValid(i, j);
      assert g.Edge(i, j) == g.vertex[i][j];
      StoredFits(g.vertex[i][j], p);
    }
    g.MappedValid(g.numDim, f, |p|);
  }

  lemma PermutedStateIsValid(s: LoopState, active: set<int>, pi: seq<int>, orders: seq<seq<int>>)
    requires s.Valid() && PermutesLevels(pi) && LowestLevel(pi) + |pi| - 1 <= s.numDepDim
    requires OrdersFit(s, orders)
    ensures PermutedState(s, active, pi, orders).Valid()
  {
    var t, level := PermutedState(s, active, pi, orders), LowestLevel(pi);
    DependencePermutationIsPermutation(pi, level, s.numDepDim);
    StoredGraphIsValid(s.dep, DependencePermutation(pi, level, s.numDepDim), active);
    forall i | 0 <= i < |t.stmt|
      ensures t.stmt[i].Valid(s.numDepDim)
    {
      assert s.stmt[i].Valid(s.numDepDim);
    }
  }

  /** The permuted schedule is the old one, rearranged. */
  lemma PermutedSchedule(s: LoopState, active: set<int>, pi: seq<int>, orders: seq<seq<int>>, i: nat, x: seq<int>)
    requires s.Valid() && PermutesLevels(pi) && LowestLevel(pi) + |pi| - 1 <= s.numDepDim
    requires OrdersFit(s, orders)
    requires i < |s.stmt| && |x| == s.numDepDim
    ensures PermutedState(s, active, pi, orders).Valid()
    ensures var p := DependencePermutation(pi, LowestLevel(pi), s.numDepDim);
            InRange(p, s.numDepDim) &&
            Scheduled(PermutedState(s, active, pi, orders), i, x) ==
            if i in active then Rearranged(Scheduled(s, i, x), p) else Scheduled(s, i, x)
  {
    PermutedStateIsValid(s, active, pi, orders);
    var p := DependencePermutation(pi, LowestLevel(pi), s.numDepDim);
    DependencePermutationIsPermutation(pi, LowestLevel(pi), s.numDepDim);
    assert s.stmt[i].Valid(s.numDepDim);
    ImageRearranged(s.stmt[i].xform, x, p);
  }

  lemma StoredListAdmits(ds: seq<DependenceVector>, p: seq<int>, v: seq<int>)
    requires AllFit(ds, |p|) && InRange(p, |p|) && ListAdmits(ds, v) && |v| == |p|
    ensures ListAdmits(StoredList(ds, p), Rearranged(v, p))
  {
    var k :| 0 <= k < |ds| && Admits(ds[k], v);
    assert StoredList(ds, p)[k] == ds[k].Permuted(p);
    assert ds[k].Permuted(p).Contains(Rearranged(v, p));
  }

  lemma JumbledListAdmits(ds: seq<DependenceVector>, p: seq<int>, v: seq<int>, w: seq<int>)
    requires AllFit(ds, |p|) && InRange(p, |p|) && ListAdmits(ds, v)
    requires |v| == |w| == |p| && forall k :: 0 <= k < |p| && p[k] == k ==> w[k] == v[k]
    ensures ListAdmits(JumbledDataList(ds, p), w)
  {
    var k :| 0 <= k < |ds| && Admits(ds[k], v);
    assert JumbledDataList(ds, p)[k] == Jumbled(ds[k], p);
    JumbledMeaning(ds[k], p, w);
  }

  /** How a distance changes when p rearranges the source, the destination, both or neither. */
  ghost predicate Moved(v: seq<int>, w: seq<int>, p: seq<int>, source: bool, destination: bool) {
    && |v| == |w| == |p| && InRange(p, |p|)
    && (source && destination ==> w == Rearranged(v, p))
    && (!source && !destination ==> w == v)
    && (source != destination ==> forall k :: 0 <= k < |p| && p[k] == k ==> w[k] == v[k])
  }

  lemma DifferenceMoved(a: seq<int>, b: seq<int>, a': seq<int>, b': seq<int>, p: seq<int>, source: bool,
                        destination: bool)
    requires |a| == |b| == |p| && InRange(p, |p|)
    requires a' == if destination then Rearranged(a, p) else a
    requires b' == if source then Rearranged(b, p) else b
    ensures Moved(Difference(a, b), Difference(a', b'), p, source, destination)
  {
    var v, w := Difference(a, b), Difference(a', b');
    if source && destination {
      assert w == Rearranged(v, p);
    }
  }

  lemma MovedStaysAdmitted(ds: seq<DependenceVector>, es: seq<DependenceVector>, v: seq<int>, w: seq<int>, p: seq<int>,
                           source: bool, destination: bool)
    requires AllFit(ds, |p|) && Moved(v, w, p, source, destination) && ListAdmits(ds, v)
    requires es ==
             if source && destination then StoredList(ds, p)
             else if !source && !destination then ds
             else JumbledDataList(ds, p)
    ensures ListAdmits(es, w)
  {
    if source && destination {
      StoredListAdmits(ds, p, v);
    } else if source || destination {
      JumbledListAdmits(ds, p, v, w);
    }
  }

  /** permute: the stored graph covers every dependence of the permuted schedule. */
  lemma PermuteKeepsCovered(s: LoopState, active: set<int>, pi: seq<int>, orders: seq<seq<int>>, p: Dependence)
    requires s.Valid() && PermutesLevels(pi) && LowestLevel(pi) + |pi| - 1 <= s.numDepDim
    requires OrdersFit(s, orders)
    requires Covered(s, p)
    ensures PermutedState(s, active, pi, orders).Valid()
    ensures Covered(PermutedState(s, active, pi, orders), p)
  {
    var t := PermutedState(s, active, pi, orders);
    var perm := DependencePermutation(pi, LowestLevel(pi), s.numDepDim);
    PermutedSchedule(s, active, pi, orders, p.src, p.x);
    PermutedSchedule(s, active, pi, orders, p.dst, p.y);
    DifferenceMoved(Scheduled(s, p.dst, p.y), Scheduled(s, p.src, p.x), Scheduled(t, p.dst, p.y),
                    Scheduled(t, p.src, p.x), perm, p.src in active, p.dst in active);
    s.dep.EdgeFits(p.src, p.dst, s.numDepDim);
    s.dep.MappedEdge(s.dep.numDim, StoredEdges(perm, active), p.src, p.dst);
    MovedStaysAdmitted(s.dep.Edge(p.src, p.dst), t.dep.Edge(p.src, p.dst), Distance(s, p), Distance(t, p),
                       perm, p.src in active, p.dst in active);
  }

  // ---------- skew ----------

  /** v with one component replaced by the weighted sum of all components. */
  ghost function SkewPoint(v: seq<int>, dim: nat, amounts: seq<int>): (w: seq<int>)
    requires dim < |v| && Applicable(amounts, |v|)
    ensures |w| == |v| && forall k :: 0 <= k < |v| && k != dim ==> w[k] == v[k]
  {
    v[dim := WeightedSum(amounts, v, |amounts|)]
  }

  lemma SkewVectorFits(d: DependenceVector, dim: nat, amounts: seq<int>)
    requires d.Valid() && (d.IsData() ==> dim < |d.lbounds| && Applicable(amounts, |d.lbounds|))
    requires SkewVector(d, dim, amounts).Ok?
    ensures SkewVector(d, dim, amounts).value.Valid() && |SkewVector(d, dim, amounts).value.lbounds| == |d.lbounds|
  {
    if d.IsData() {
      SkewIntervalExact(d, amounts);
    }
  }

  /** One skewed vector admits every old distance, skewed. */
  lemma SkewVectorAdmits(d: DependenceVector, dim: nat, amounts: seq<int>, v: seq<int>)
    requires d.Valid() && dim < |d.lbounds| && Applicable(amounts, |d.lbounds|)
    requires SkewVector(d, dim, amounts).Ok? && Admits(d, v)
    ensures Admits(SkewVector(d, dim, amounts).value, SkewPoint(v, dim, amounts))
  {
    SkewIntervalExact(d, amounts);
    SkewVectorFits(d, dim, amounts);
  }

  lemma SkewListMembers(ds: seq<DependenceVector>, dim: nat, amounts: seq<int>)
    requires SkewList(ds, dim, amounts).Ok?
    ensures var es := SkewList(ds, dim, amounts).value;
            && (forall e :: e in es ==> exists m :: 0 <= m < |ds| && SkewVector(ds[m], dim, amounts) == Ok(e))
            && (forall m :: 0 <= m < |ds| ==>
              SkewVector(ds[m], dim, amounts).Ok? && SkewVector(ds[m], dim, amounts).value in es)
  {
    var f, es := SkewedOne(dim, amounts), SkewList(ds, dim, amounts).value;
    FlatMapThrows(ds, f, |ds|);
    forall e | e in es
      ensures exists m :: 0 <= m < |ds| && SkewVector(ds[m], dim, amounts) == Ok(e)
    {
      FlatMapMembers(ds, f, |ds|, e);
    }
    forall m | 0 <= m < |ds|
      ensures SkewVector(ds[m], dim, amounts).Ok? && SkewVector(ds[m], dim, amounts).value in es
    {
      assert f(ds[m]).Ok?;
      FlatMapMembers(ds, f, |ds|, SkewVector(ds[m], dim, amounts).value);
    }
  }

  lemma SkewListFits(ds: seq<DependenceVector>, dim: nat, amounts: seq<int>, n: nat)
    requires AllFit(ds, n) && dim < n && Applicable(amounts, n)
    requires SkewList(ds, dim, amounts).Ok? && ds != []
    ensures SkewList(ds, dim, amounts).value != [] && AllFit(SkewList(ds, dim, amounts).value, n)
  {
    var es := SkewList(ds, dim, amounts).value;
    SkewListMembers(ds, dim, amounts);
    assert SkewVector(ds[0], dim, amounts).value in es;
    forall k | 0 <= k < |es|
      ensures es[k].Valid() && (es[k].IsData() ==> |es[k].lbounds| == n)
    {
      assert es[k] in es;
      var m :| 0 <= m < |ds| && SkewVector(ds[m], dim, amounts) == Ok(es[k]);
      SkewVectorFits(ds[m], dim, amounts);
    }
  }

  lemma SkewListAdmits(ds: seq<DependenceVector>, dim: nat, amounts: seq<int>, n: nat, v: seq<int>)
    requires AllFit(ds, n) && dim < n && Applicable(amounts, n)
    requires SkewList(ds, dim, amounts).Ok? && |v| == n && ListAdmits(ds, v)
    ensures ListAdmits(SkewList(ds, dim, amounts).value, SkewPoint(v, dim, amounts))
  {
    var es := SkewList(ds, dim, amounts).value;
    SkewListMembers(ds, dim, amounts);
    var m :| 0 <= m < |ds| && Admits(ds[m], v);
    SkewVectorAdmits(ds[m], dim, amounts, v);
    var k :| 0 <= k < |es| && es[k] == SkewVector(ds[m], dim, amounts).value;
  }

  lemma UnknownAtListFits(ds: seq<DependenceVector>, dim: nat, n: nat)
    requires AllFit(ds, n) && dim < n
    ensures AllFit(UnknownAtList(ds, dim), n)
  {
  }

  lemma UnknownAtListAdmits(ds: seq<DependenceVector>, dim: nat, n: nat, v: seq<int>, w: seq<int>)
    requires AllFit(ds, n) && dim < n && ListAdmits(ds, v)
    requires |v| == |w| == n && forall k :: 0 <= k < n && k != dim ==> w[k] == v[k]
    ensures ListAdmits(UnknownAtList(ds, dim), w)
  {
    var m :| 0 <= m < |ds| && Admits(ds[m], v);
    assert UnknownAtList(ds, dim)[m] == UnknownAt(ds[m], dim);
    assert Admits(UnknownAt(ds[m], dim), w);
  }

  lemma SkewedGraphIsValid(g: DependenceGraph, active: set<int>, dim: nat, amounts: seq<int>, n: nat)
    requires g.Valid() && g.Fits(n) && dim < n && Applicable(amounts, n)
    requires !SkewRejects(g, active, dim, amounts)
    ensures g.Updated(SkewedEdges(active, dim, amounts)).Valid() && g.Updated(SkewedEdges(active, dim, amounts)).Fits(n)
  {
    var f := SkewedEdges(active, dim, amounts);
    forall i: nat, j: int | i < |g.vertex| && j in g.vertex[i]
      ensures f(i, j, g.vertex[i][j]) != [] && AllFit(f(i, j, g.vertex[i][j]), n)
    {
      assert g.ValidEdge(i, j);
      g.EdgeFits(i, j, n);
      var ds := g.vertex[i][j];
      assert ds == g.Edge(i, j);
      SkewedEdgeList(active, dim, amounts, i, j, ds);
      if i in active && j in active {
        assert SkewList(g.Edge(i, j), dim, amounts).Ok?;
        SkewListFits(ds, dim, amounts, n);
      } else if i in active || j in active {
        UnknownAtListFits(ds, dim, n);
      }
    }
    g.UpdatedValid(f, n);
  }

  lemma SkewedStateIsValid(s: LoopState, active: set<int>, level: int, amounts: seq<int>)
    requires s.Valid() && SkewArguments(s, active, level, amounts)
    requires !SkewRejects(s.dep, active, level - 1, amounts)
    ensures SkewedState(s, active, level, amounts).Valid()
  {
    var t := SkewedState(s, active, level, amounts);
    SkewedGraphIsValid(s.dep, active, level - 1, amounts, s.numDepDim);
    forall i | 0 <= i < |t.stmt|
      ensures t.stmt[i].Valid(s.numDepDim)
    {
      assert s.stmt[i].Valid(s.numDepDim);
    }
  }

  /** The image under a skewed map is the skewed image. */
  lemma SkewedImage(rows: seq<Row>, x: seq<int>, dim: nat, amounts: seq<int>)
    requires IsMap(rows, |x|) && dim < |rows| && Applicable(amounts, |rows|)
    ensures Image(rows[dim := Combined(amounts, rows, |x|, |amounts|)], x) == SkewPoint(Image(rows, x), dim, amounts)
  {
    CombinedValue(amounts, rows, x, |amounts|);
  }

  lemma SkewedSchedule(s: LoopState, active: set<int>, level: int, amounts: seq<int>, i: nat, x: seq<int>)
    requires s.Valid() && SkewArguments(s, active, level, amounts)
    requires SkewedState(s, active, level, amounts).Valid()
    requires i < |s.stmt| && |x| == s.numDepDim
    ensures Scheduled(SkewedState(s, active, level, amounts), i, x) ==
            if i in active then SkewPoint(Scheduled(s, i, x), level - 1, amounts) else Scheduled(s, i, x)
  {
    assert s.stmt[i].Valid(s.numDepDim);
    if i in active {
      SkewedImage(s.stmt[i].xform, x, level - 1, amounts);
    }
  }

  /** Skewing two points skews their difference. */
  lemma DifferenceSkewed(a: seq<int>, b: seq<int>, dim: nat, amounts: seq<int>)
    requires |a| == |b| && dim < |a| && Applicable(amounts, |a|)
    ensures Difference(SkewPoint(a, dim, amounts), SkewPoint(b, dim, amounts)) ==
            SkewPoint(Difference(a, b), dim, amounts)
  {
    WeightedDifference(amounts, a, b, Difference(a, b), |amounts|);
  }

  /** How a distance changes when the source, the destination, both or neither are skewed. */
  ghost predicate Skewed(v: seq<int>, w: seq<int>, dim: nat, amounts: seq<int>, source: bool, destination: bool) {
    && |v| == |w| && dim < |v| && Applicable(amounts, |v|)
    && (source && destination ==> w == SkewPoint(v, dim, amounts))
    && (!source && !destination ==> w == v)
    && (forall k :: 0 <= k < |v| && k != dim ==> w[k] == v[k])
  }

  lemma DifferenceIsSkewed(a: seq<int>, b: seq<int>, a': seq<int>, b': seq<int>, dim: nat, amounts: seq<int>,
                           source: bool, destination: bool)
    requires |a| == |b| && dim < |a| && Applicable(amounts, |a|)
    requires a' == if destination then SkewPoint(a, dim, amounts) else a
    requires b' == if source then SkewPoint(b, dim, amounts) else b
    ensures Skewed(Difference(a, b), Difference(a', b'), dim, amounts, source, destination)
  {
    DifferenceSkewed(a, b, dim, amounts);
  }

  lemma SkewedStaysAdmitted(ds: seq<DependenceVector>, es: seq<DependenceVector>, v: seq<int>, w: seq<int>,
                            dim: nat, amounts: seq<int>, source: bool, destination: bool)
    requires Skewed(v, w, dim, amounts, source, destination) && AllFit(ds, |v|) && ListAdmits(ds, v)
    requires source && destination ==> SkewList(ds, dim, amounts) == Ok(es)
    requires !(source && destination) ==> es == if source || destination then UnknownAtList(ds, dim) else ds
    ensures ListAdmits(es, w)
  {
    if source && destination {
      SkewListAdmits(ds, dim, amounts, |v|, v);
    } else if source || destination {
      UnknownAtListAdmits(ds, dim, |v|, v, w);
    }
  }

  lemma SkewedEdgeOf(g: DependenceGraph, active: set<int>, dim: nat, amounts: seq<int>, i: int, j: int)
    requires !SkewRejects(g, active, dim, amounts)
    ensures var ds, es := g.Edge(i, j), g.Updated(SkewedEdges(active, dim, amounts)).Edge(i, j);
            && (i in active && j in active ==> SkewList(ds, dim, amounts) == Ok(es))
            && (!(i in active && j in active) ==>
              es == if i in active || j in active then UnknownAtList(ds, dim) else ds)
  {
    var ds := g.Edge(i, j);
    g.UpdatedEdge(SkewedEdges(active, dim, amounts), i, j);
    SkewedEdgeList(active, dim, amounts, i, j, ds);
    assert i in active && j in active ==> SkewList(g.Edge(i, j), dim, amounts).Ok?;
    assert SkewList([], dim, amounts) == Ok([]);
    if !(0 <= i < |g.vertex| && j in g.vertex[i]) {
      assert ds == [];
    }
  }

  lemma SkewedDistance(s: LoopState, active: set<int>, level: int, amounts: seq<int>, p: Dependence)
    requires s.Valid() && SkewArguments(s, active, level, amounts) && InSpace(s, p)
    requires SkewedState(s, active, level, amounts).Valid()
    ensures Skewed(Distance(s, p), Distance(SkewedState(s, active, level, amounts), p), level - 1, amounts,
            p.src in active, p.dst in active)
  {
    var t := SkewedState(s, active, level, amounts);
    SkewedSchedule(s, active, level, amounts, p.src, p.x);
    SkewedSchedule(s, active, level, amounts, p.dst, p.y);
    DifferenceIsSkewed(Scheduled(s, p.dst, p.y), Scheduled(s, p.src, p.x), Scheduled(t, p.dst, p.y),
                       Scheduled(t, p.src, p.x), level - 1, amounts, p.src in active, p.dst in active);
  }

  /** On one edge: the updated list admits the skewed distance. */
  lemma SkewedEdgeAdmits(g: DependenceGraph, active: set<int>, dim: nat, amounts: seq<int>, i: int, j: int,
                         v: seq<int>, w: seq<int>)
    requires g.Valid() && g.Fits(|v|) && !SkewRejects(g, active, dim, amounts)
    requires Skewed(v, w, dim, amounts, i in active, j in active) && ListAdmits(g.Edge(i, j), v)
    ensures ListAdmits(g.Updated(SkewedEdges(active, dim, amounts)).Edge(i, j), w)
  {
    var ds, es := g.Edge(i, j), g.Updated(SkewedEdges(active, dim, amounts)).Edge(i, j);
    g.EdgeFits(i, j, |v|);
    SkewedEdgeOf(g, active, dim, amounts, i, j);
    SkewedStaysAdmitted(ds, es, v, w, dim, amounts, i in active, j in active);
  }

  lemma SkewedDistanceAdmitted(s: LoopState, active: set<int>, level: int, amounts: seq<int>, p: Dependence)
    requires s.Valid() && SkewArguments(s, active, level, amounts) && Covered(s, p)
    requires !SkewRejects(s.dep, active, level - 1, amounts) && SkewedState(s, active, level, amounts).Valid()
    ensures ListAdmits(SkewedState(s, active, level, amounts).dep.Edge(p.src, p.dst),
            Distance(SkewedState(s, active, level, amounts), p))
  {
    SkewedDistance(s, active, level, amounts, p);
    SkewedEdgeAdmits(s.dep, active, level - 1, amounts, p.src, p.dst, Distance(s, p),
                     Distance(SkewedState(s, active, level, amounts), p));
  }

  /** skew: when it does not throw, the updated graph covers every dependence of the skewed schedule. */
  lemma SkewKeepsCovered(s: LoopState, active: set<int>, level: int, amounts: seq<int>, p: Dependence)
    requires s.Valid() && SkewArguments(s, active, level, amounts)
    requires !SkewRejects(s.dep, active, level - 1, amounts)
    requires Covered(s, p)
    ensures SkewedState(s, active, level, amounts).Valid()
    ensures Covered(SkewedState(s, active, level, amounts), p)
  {
    SkewedStateIsValid(s, active, level, amounts);
    SkewedDistanceAdmitted(s, active, level, amounts, p);
  }

  // ---------- shift ----------

  lemma ShiftListFits(ds: seq<DependenceVector>, dim: nat, amount: int, n: nat)
    requires AllFit(ds, n) && dim < n
    ensures AllFit(ShiftList(ds, dim, amount), n)
  {
  }

  lemma ShiftListAdmits(ds: seq<DependenceVector>, dim: nat, amount: int, n: nat, v: seq<int>)
    requires AllFit(ds, n) && dim < n && ListAdmits(ds, v) && |v| == n
    ensures ListAdmits(ShiftList(ds, dim, amount), Added(v, dim, amount))
  {
    var m :| 0 <= m < |ds| && Admits(ds[m], v);
    assert ShiftList(ds, dim, amount)[m] == ShiftVector(ds[m], dim, amount);
    assert Admits(ShiftVector(ds[m], dim, amount), Added(v, dim, amount));
  }

  lemma ShiftedGraphIsValid(g: DependenceGraph, active: set<int>, dim: nat, amount: int, n: nat)
    requires g.Valid() && g.Fits(n) && dim < n
    ensures g.Updated(ShiftedEdges(active, dim, amount)).Valid() && g.Updated(ShiftedEdges(active, dim, amount)).Fits(n)
  {
    var f := ShiftedEdges(active, dim, amount);
    forall i: nat, j: int | i < |g.vertex| && j in g.vertex[i]
      ensures f(i, j, g.vertex[i][j]) != [] && AllFit(f(i, j, g.vertex[i][j]), n)
    {
      assert g.ValidEdge(i, j);
      g.EdgeFits(i, j, n);
      assert g.vertex[i][j] == g.Edge(i, j);
      ShiftListFits(g.vertex[i][j], dim, amount, n);
      ShiftListFits(g.vertex[i][j], dim, -amount, n);
    }
    g.UpdatedValid(f, n);
  }

  lemma ShiftedStateIsValid(s: LoopState, active: set<int>, level: int, amount: int)
    requires s.Valid() && ShiftArguments(s, active, level)
    ensures ShiftedState(s, active, level, amount).Valid()
  {
    var t := ShiftedState(s, active, level, amount);
    ShiftedGraphIsValid(s.dep, active, level - 1, amount, s.numDepDim);
    forall i | 0 <= i < |t.stmt|
      ensures t.stmt[i].Valid(s.numDepDim)
    {
      assert s.stmt[i].Valid(s.numDepDim);
    }
  }

  lemma ShiftedSchedule(s: LoopState, active: set<int>, level: int, amount: int, i: nat, x: seq<int>, t: LoopState)
    requires s.Valid() && ShiftArguments(s, active, level)
    requires t.Valid() && t == ShiftedState(s, active, level, amount)
    requires i < |s.stmt| && |x| == s.numDepDim
    ensures var v := Scheduled(s, i, x);
            Scheduled(t, i, x) == if i in active then v[level - 1 := v[level - 1] + amount] else v
  {
    assert s.stmt[i].Valid(s.numDepDim);
  }

  /** What a shift adds to a distance, by which of its ends are shifted. */
  function AddedBy(amount: int, source: bool, destination: bool): int {
    (if destination then amount else 0) - (if source then amount else 0)
  }

  ghost function Added(v: seq<int>, dim: nat, k: int): (w: seq<int>)
    requires dim < |v|
    ensures |w| == |v|
  {
    v[dim := v[dim] + k]
  }

  lemma DifferenceIsShifted(a: seq<int>, b: seq<int>, a': seq<int>, b': seq<int>, dim: nat, amount: int, source: bool,
                            destination: bool)
    requires |a| == |b| && dim < |a|
    requires a' == if destination then a[dim := a[dim] + amount] else a
    requires b' == if source then b[dim := b[dim] + amount] else b
    ensures |a'| == |b'| && Difference(a', b') == Added(Difference(a, b), dim, AddedBy(amount, source, destination))
  {
  }

  lemma ShiftedEdgeOf(g: DependenceGraph, active: set<int>, dim: nat, amount: int, i: int, j: int)
    ensures g.Updated(ShiftedEdges(active, dim, amount)).Edge(i, j) ==
            if (i in active) == (j in active) then g.Edge(i, j)
            else ShiftList(g.Edge(i, j), dim, AddedBy(amount, i in active, j in active))
  {
    g.UpdatedEdge(ShiftedEdges(active, dim, amount), i, j);
    ShiftedEdgeList(active, dim, amount, i, j, g.Edge(i, j));
  }

  lemma DistanceIsShifted(s: LoopState, t: LoopState, p: Dependence, dim: nat, amount: int, source: bool,
                          destination: bool)
    requires s.Valid() && t.Valid() && InSpace(s, p) && InSpace(t, p) && dim < s.numDepDim
    requires var b := Scheduled(s, p.src, p.x);
             Scheduled(t, p.src, p.x) == if source then b[dim := b[dim] + amount] else b
    requires var a := Scheduled(s, p.dst, p.y);
             Scheduled(t, p.dst, p.y) == if destination then a[dim := a[dim] + amount] else a
    ensures Distance(t, p) == Added(Distance(s, p), dim, AddedBy(amount, source, destination))
  {
    DifferenceIsShifted(Scheduled(s, p.dst, p.y), Scheduled(s, p.src, p.x), Scheduled(t, p.dst, p.y),
                        Scheduled(t, p.src, p.x), dim, amount, source, destination);
  }

  lemma ShiftedDistance(s: LoopState, active: set<int>, level: int, amount: int, p: Dependence, t: LoopState)
    requires s.Valid() && ShiftArguments(s, active, level) && InSpace(s, p)
    requires t.Valid() && t == ShiftedState(s, active, level, amount)
    ensures Distance(t, p) == Added(Distance(s, p), level - 1, AddedBy(amount, p.src in active, p.dst in active))
  {
    ShiftedSchedule(s, active, level, amount, p.src, p.x, t);
    ShiftedSchedule(s, active, level, amount, p.dst, p.y, t);
    DistanceIsShifted(s, t, p, level - 1, amount, p.src in active, p.dst in active);
  }

  /** On one edge: the updated list admits the shifted distance. */
  lemma ShiftedEdgeAdmits(g: DependenceGraph, active: set<int>, dim: nat, amount: int, i: int, j: int, v: seq<int>)
    requires g.Valid() && g.Fits(|v|) && dim < |v| && ListAdmits(g.Edge(i, j), v)
    ensures ListAdmits(g.Updated(ShiftedEdges(active, dim, amount)).Edge(i, j),
            Added(v, dim, AddedBy(amount, i in active, j in active)))
  {
    g.EdgeFits(i, j, |v|);
    ShiftedEdgeOf(g, active, dim, amount, i, j);
    if (i in active) == (j in active) {
      assert Added(v, dim, 0) == v;
    } else {
      ShiftListAdmits(g.Edge(i, j), dim, AddedBy(amount, i in active, j in active), |v|, v);
    }
  }

  /** es and w name the edge and the distance after the shift. */
  lemma CoveredPairShifted(s: LoopState, active: set<int>, dim: nat, amount: int, p: Dependence,
                           es: seq<DependenceVector>, w: seq<int>)
    requires s.Valid() && dim < s.numDepDim && Covered(s, p)
    requires es == s.dep.Updated(ShiftedEdges(active, dim, amount)).Edge(p.src, p.dst)
    requires w == Added(Distance(s, p), dim, AddedBy(amount, p.src in active, p.dst in active))
    ensures ListAdmits(es, w)
  {
    ShiftedEdgeAdmits(s.dep, active, dim, amount, p.src, p.dst, Distance(s, p));
  }

  lemma ShiftedPairCovered(s: LoopState, active: set<int>, level: int, amount: int, p: Dependence)
    requires s.Valid() && ShiftArguments(s, active, level)
    requires Covered(s, p) && ShiftedState(s, active, level, amount).Valid()
    ensures Covered(ShiftedState(s, active, level, amount), p)
  {
    var t := ShiftedState(s, active, level, amount);
    ShiftedDistance(s, active, level, amount, p, t);
    CoveredPairShifted(s, active, level - 1, amount, p, t.dep.Edge(p.src, p.dst), Distance(t, p));
  }

  /** shift: the updated graph covers every dependence of the shifted schedule. */
  lemma ShiftKeepsCovered(s: LoopState, active: set<int>, level: int, amount: int, p: Dependence)
    requires s.Valid() && ShiftArguments(s, active, level)
    requires Covered(s, p)
    ensures ShiftedState(s, active, level, amount).Valid()
    ensures Covered(ShiftedState(s, active, level, amount), p)
  {
    ShiftedStateIsValid(s, active, level, amount);
    ShiftedPairCovered(s, active, level, amount, p);
  }

  // ---------- Runs ----------

  datatype Op =
    | PermuteOp(active: set<int>, pi: seq<int>, orders: seq<seq<int>>)
    | SkewOp(active: set<int>, level: int, amounts: seq<int>)
    | ScaleOp(active: set<int>, level: int, amount: int)
    | ReverseOp(active: set<int>, level: int)
    | ShiftOp(active: set<int>, level: int, amount: int)

  /** What the C++ needs of its callers to index within bounds. */
  ghost predicate Allowed(s: LoopState, op: Op) {
    match op
    case PermuteOp(active, pi, orders) => OrdersFit(s, orders) && PermuteInBounds(s, active, pi)
    case ScaleOp(_, level, _) => level >= 1
    case ReverseOp(_, level) => level >= 1
    case _ => true
  }

  ghost function Outcome(s: LoopState, op: Op): Result<LoopState>
    requires s.Valid() && Allowed(s, op)
  {
    match op
    case PermuteOp(active, pi, orders) => PermuteOutcome(s, active, pi, Ok(orders))
    case SkewOp(active, level, amounts) => SkewOutcome(s, active, level, amounts)
    case ScaleOp(active, level, amount) => SkewOutcome(s, active, level, ScaleAmounts(level, amount))
    case ReverseOp(active, level) => SkewOutcome(s, active, level, ScaleAmounts(level, -1))
    case ShiftOp(active, level, amount) => ShiftOutcome(s, active, level, amount)
  }

  lemma PermuteOpIsValid(s: LoopState, active: set<int>, pi: seq<int>, orders: seq<seq<int>>)
    requires s.Valid() && Allowed(s, PermuteOp(active, pi, orders))
    requires PermuteOutcome(s, active, pi, Ok(orders)).Ok?
    ensures PermuteOutcome(s, active, pi, Ok(orders)).value.Valid()
    ensures active != {} && pi != [] ==>
              PermutesLevels(pi) && LowestLevel(pi) + |pi| - 1 <= s.numDepDim
              && PermuteOutcome(s, active, pi, Ok(orders)).value == PermutedState(s, active, pi, orders)
  {
    if active != {} && pi != [] {
      PermutedStateIsValid(s, active, pi, orders);
    }
  }

  lemma SkewOpIsValid(s: LoopState, active: set<int>, level: int, amounts: seq<int>)
    requires s.Valid() && SkewOutcome(s, active, level, amounts).Ok?
    ensures SkewOutcome(s, active, level, amounts).value.Valid()
    ensures active != {} ==>
              SkewArguments(s, active, level, amounts) && !SkewRejects(s.dep, active, level - 1, amounts)
              && SkewOutcome(s, active, level, amounts).value == SkewedState(s, active, level, amounts)
  {
    if active != {} {
      SkewedStateIsValid(s, active, level, amounts);
    }
  }

  lemma ShiftOpIsValid(s: LoopState, active: set<int>, level: int, amount: int)
    requires s.Valid() && ShiftOutcome(s, active, level, amount).Ok?
    ensures ShiftOutcome(s, active, level, amount).value.Valid()
  {
    if active != {} && amount != 0 {
      ShiftedStateIsValid(s, active, level, amount);
    }
  }

  /** A transformation that does not throw leaves a well-formed state. */
  lemma StepIsValid(s: LoopState, op: Op)
    requires s.Valid() && Allowed(s, op) && Outcome(s, op).Ok?
    ensures Outcome(s, op).value.Valid()
  {
    match op
    case PermuteOp(active, pi, orders) => PermuteOpIsValid(s, active, pi, orders);
    case SkewOp(active, level, amounts) => SkewOpIsValid(s, active, level, amounts);
    case ScaleOp(active, level, amount) => SkewOpIsValid(s, active, level, ScaleAmounts(level, amount));
    case ReverseOp(active, level) => SkewOpIsValid(s, active, level, ScaleAmounts(level, -1));
    case ShiftOp(active, level, amount) => ShiftOpIsValid(s, active, level, amount);
  }

  lemma SkewOpKeepsCovered(s: LoopState, active: set<int>, level: int, amounts: seq<int>, p: Dependence)
    requires s.Valid() && SkewOutcome(s, active, level, amounts).Ok? && Covered(s, p)
    ensures SkewOutcome(s, active, level, amounts).value.Valid()
    ensures Covered(SkewOutcome(s, active, level, amounts).value, p)
  {
    SkewOpIsValid(s, active, level, amounts);
    if active != {} {
      SkewKeepsCovered(s, active, level, amounts, p);
    }
  }

  /** Every transformation that does not throw keeps every covered dependence covered. */
  lemma StepKeepsCovered(s: LoopState, op: Op, p: Dependence)
    requires s.Valid() && Allowed(s, op) && Outcome(s, op).Ok? && Covered(s, p)
    ensures Outcome(s, op).value.Valid()
    ensures Covered(Outcome(s, op).value, p)
  {
    StepIsValid(s, op);
    match op {
      case PermuteOp(active, pi, orders) =>
        PermuteOpIsValid(s, active, pi, orders);
        if active != {} && pi != [] {
          PermuteKeepsCovered(s, active, pi, orders, p);
        }
      case SkewOp(active, level, amounts) => SkewOpKeepsCovered(s, active, level, amounts, p);
      case ScaleOp(active, level, amount) => SkewOpKeepsCovered(s, active, level, ScaleAmounts(level, amount), p);
      case ReverseOp(active, level) => SkewOpKeepsCovered(s, active, level, ScaleAmounts(level, -1), p);
      case ShiftOp(active, level, amount) =>
        if active != {} && amount != 0 {
          ShiftKeepsCovered(s, active, level, amount, p);
        }
    }
  }

  /** states is a run of ops in which nothing throws. */
  ghost predicate IsRun(states: seq<LoopState>, ops: seq<Op>) {
    && |states| == |ops| + 1
    && states[0].Valid()
    && forall k :: 0 <= k < |ops| ==> IsStep(states[k], ops[k], states[k + 1])
  }

  ghost predicate IsStep(s: LoopState, op: Op, t: LoopState) {
    s.Valid() && Allowed(s, op) && Outcome(s, op) == Ok(t)
  }

  /**
   Safety over whole runs: whatever the graph covers at the start, it covers at
   the end of every run that does not throw, on inner and on jumbled edges alike.
   */
  lemma {:induction false} RunKeepsCovered(states: seq<LoopState>, ops: seq<Op>, k: nat, p: Dependence)
    requires IsRun(states, ops) && k <= |ops|
    requires Covered(states[0], p)
    ensures states[k].Valid() && Covered(states[k], p)
  {
    if k > 0 {
      RunKeepsCovered(states, ops, k - 1, p);
      assert IsStep(states[k - 1], ops[k - 1], states[k]);
      StepKeepsCovered(states[k - 1], ops[k - 1], p);
    }
  }
}
