/**
 Where the transformations do and do not deliver what they suggest: the stored
 graph against the one DependenceGraph::permute computes, the parallel tags that
 permute moves, and what skew's exception means.
 */
module LoopFacts {
  import opened Bounds
  import opened Lexicographic
  import opened Lists
  import opened Permutations
  import opened DependenceVectors
  import opened DependenceGraphs
  import opened Affine
  import opened LoopStates
  import opened Loops
  import opened LoopSafety

  // ---------- The stored graph and the discarded one ----------

  /** What DependenceGraph::permute makes of one vector on edge (i, j). */
  ghost function PermutedParts(d: DependenceVector, p: seq<int>, active: set<int>, i: int,
                               j: int): seq<DependenceVector> {
    if i in active && j in active then VectorResult(d, p).GetOr([])
    else if i in active || j in active then [Jumbled(d, p)]
    else [d]
  }

  /** What Loop::permute stores for it. */
  ghost function StoredPart(d: DependenceVector, p: seq<int>, active: set<int>, i: int, j: int): DependenceVector {
    if i in active && j in active then StoredVector(d, p)
    else if i in active || j in active then JumbledVector(d, p)
    else d
  }

  ghost function PartsOn(p: seq<int>, active: set<int>, i: int, j: int): DependenceVector -> seq<DependenceVector> {
    (d: DependenceVector) => PermutedParts(d, p, active, i, j)
  }

  /** Both graphs list what becomes of the vectors of an edge, in order: first the permuted one. */
  lemma PermutedByVector(g: DependenceGraph, p: seq<int>, active: set<int>, i: int, j: int)
    requires g.Valid() && active != {} && g.PermuteResult(p, active).Ok?
    ensures g.PermuteResult(p, active).value.Edge(i, j) == Flatten(g.Edge(i, j), PartsOn(p, active, i, j))
  {
    var ds, parts := g.Edge(i, j), PartsOn(p, active, i, j);
    g.MappedEdge(0, DependenceGraph.PermutedEdges(p, active), i, j);
    if i in active && j in active {
      assert !g.RejectedEdge(p, active, i, j);
      FlatMapIsFlatten(ds, (d: DependenceVector) => VectorResult(d, p), parts, |ds|);
      WholePrefix(ds);
    } else {
      FlattenSingles(ds, if i in active || j in active then JumbledList(ds, p) else ds, parts);
    }
  }

  lemma StoredEdgeByVector(ds: seq<DependenceVector>, p: seq<int>, active: set<int>, i: int, j: int)
    ensures var es := StoredEdges(p, active)(i, j, ds);
            |es| == |ds| && forall k :: 0 <= k < |es| ==> es[k] == StoredPart(ds[k], p, active, i, j)
  {
    if i in active && j in active {
      assert StoredEdges(p, active)(i, j, ds) == StoredList(ds, p);
    } else if i in active || j in active {
      assert StoredEdges(p, active)(i, j, ds) == JumbledDataList(ds, p);
    }
  }

  /** Then the stored one. */
  lemma StoredByVector(g: DependenceGraph, p: seq<int>, active: set<int>, i: int, j: int)
    requires g.Valid()
    ensures var es := g.Mapped(g.numDim, StoredEdges(p, active)).Edge(i, j);
            |es| == |g.Edge(i, j)| && forall k :: 0 <= k < |es| ==>
              es[k] == StoredPart(g.Edge(i, j)[k], p, active, i, j)
  {
    var ds := g.Edge(i, j);
    g.MappedEdge(g.numDim, StoredEdges(p, active), i, j);
    StoredEdgeByVector(ds, p, active, i, j);
    if !(0 <= i < |g.vertex| && j in g.vertex[i]) {
      assert ds == [];
    }
  }

  lemma BoundsSeparate(a: DependenceVector, b: DependenceVector, k: nat)
    requires a.Valid() && b.Valid() && |a.lbounds| == |b.lbounds| && k < |a.lbounds|
    requires a.lbounds[k].Less(b.lbounds[k]) || b.ubounds[k].Less(a.ubounds[k])
    ensures exists w :: a.Contains(w) && !b.Contains(w)
  {
    var x :=
      if a.lbounds[k].Less(b.lbounds[k]) then
        if a.lbounds[k].Fin? then a.lbounds[k].v
        else if a.ubounds[k].AtMost(b.lbounds[k].v - 1) then a.ubounds[k].v else b.lbounds[k].v - 1
      else
        if a.ubounds[k].Fin? then a.ubounds[k].v
        else if a.lbounds[k].AtLeast(b.ubounds[k].v + 1) then a.lbounds[k].v else b.ubounds[k].v + 1;
    var w := a.NearestMember()[k := x];
    assert a.Contains(w);
    assert !Within(b.lbounds[k], b.ubounds[k], w[k]);
  }

  /** Two boxes hold the same distances exactly when their ends agree. */
  lemma SameSetSameBounds(a: DependenceVector, b: DependenceVector)
    requires a.Valid() && b.Valid() && |a.lbounds| == |b.lbounds|
    ensures (forall w :: a.Contains(w) <==> b.Contains(w)) <==> a.lbounds == b.lbounds && a.ubounds == b.ubounds
  {
    if forall w :: a.Contains(w) <==> b.Contains(w) {
      forall k | 0 <= k < |a.lbounds|
        ensures a.lbounds[k] == b.lbounds[k] && a.ubounds[k] == b.ubounds[k]
      {
        if a.lbounds[k].Less(b.lbounds[k]) || b.ubounds[k].Less(a.ubounds[k]) {
          BoundsSeparate(a, b, k);
        }
        if b.lbounds[k].Less(a.lbounds[k]) || a.ubounds[k].Less(b.ubounds[k]) {
          BoundsSeparate(b, a, k);
        }
      }
    }
  }

  /** The stored vector holds exactly the distances of the permuted ones. */
  ghost predicate VectorAgrees(d: DependenceVector, p: seq<int>, active: set<int>, i: int, j: int) {
    var e, parts := StoredPart(d, p, active, i, j), PermutedParts(d, p, active, i, j);
    e.Valid() && AllValid(parts) && forall w :: e.Contains(w) <==> AnyContains(parts, w)
  }

  /** Moving its dimensions leaves the box as it is. */
  predicate SameEnds(d: DependenceVector, p: seq<int>)
    requires InRange(p, |p|) && |d.lbounds| == |d.ubounds|
  {
    forall k :: 0 <= k < |p| && k < |d.lbounds| && p[k] < |d.lbounds| ==>
      d.lbounds[p[k]] == d.lbounds[k] && d.ubounds[p[k]] == d.ubounds[k]
  }

  /** Nothing is known about the dimensions p moves. */
  predicate UnknownWhereMoved(d: DependenceVector, p: seq<int>)
    requires |d.lbounds| == |d.ubounds|
  {
    forall k :: 0 <= k < |p| && k < |d.lbounds| && p[k] != k ==> d.lbounds[k] == NegInf && d.ubounds[k] == PosInf
  }

  /** The edge leaves the box of d alone. */
  predicate Unaffected(d: DependenceVector, p: seq<int>, active: set<int>, i: int, j: int)
    requires InRange(p, |p|) && d.Valid()
  {
    || (i !in active && j !in active)
    || (if i in active && j in active then SameEnds(d, p) else UnknownWhereMoved(d, p))
  }

  /** The box the parts of d cover together. */
  ghost function Whole(d: DependenceVector, p: seq<int>, active: set<int>, i: int, j: int): (e: DependenceVector)
    requires d.Valid() && InRange(p, |p|) && (i in active && j in active ==> |d.lbounds| == |p|)
  {
    if i in active && j in active then d.Permuted(p) else if i in active || j in active then Jumbled(d, p) else d
  }

  lemma AloneContains(d: DependenceVector, w: seq<int>)
    requires d.Valid()
    ensures AllValid([d]) && (AnyContains([d], w) <==> d.Contains(w))
  {
    assert [d][0] == d;
  }

  lemma PermutedPartsMeaning(d: DependenceVector, p: seq<int>, active: set<int>, i: int, j: int, w: seq<int>)
    requires d.Valid() && InRange(p, |p|)
    requires i in active && j in active ==> VectorResult(d, p).Ok?
    ensures i in active && j in active ==> |d.lbounds| == |p|
    ensures Whole(d, p, active, i, j).Valid() && |Whole(d, p, active, i, j).lbounds| == |d.lbounds|
    ensures AllValid(PermutedParts(d, p, active, i, j))
    ensures AnyContains(PermutedParts(d, p, active, i, j), w) <==> Whole(d, p, active, i, j).Contains(w)
  {
    if i in active && j in active {
      VectorResultMeaning(d, p);
    } else if i in active || j in active {
      JumbledMeaning(d, p, w);
      AloneContains(Jumbled(d, p), w);
    } else {
      AloneContains(d, w);
    }
  }

  lemma StoredPartFits(d: DependenceVector, p: seq<int>, active: set<int>, i: int, j: int)
    requires d.Valid() && InRange(p, |p|) && (d.IsData() ==> |d.lbounds| == |p|)
    requires i in active && j in active ==> |d.lbounds| == |p|
    ensures var e := StoredPart(d, p, active, i, j); e.Valid() && |e.lbounds| == |d.lbounds|
    ensures var e, whole := StoredPart(d, p, active, i, j), Whole(d, p, active, i, j);
            e.lbounds == whole.lbounds && e.ubounds == whole.ubounds <==> d.IsData() || Unaffected(d, p, active, i, j)
  {
    JumbledMeaning(d, p, []);
    if !d.IsData() {
      if i in active && j in active {
        PermutedEndsIff(d, p);
      } else if i in active || j in active {
        JumbledEndsIff(d, p);
      }
    }
  }

  lemma PermutedEndsIff(d: DependenceVector, p: seq<int>)
    requires |d.lbounds| == |d.ubounds| == |p| && InRange(p, |p|)
    ensures d.lbounds == d.Permuted(p).lbounds && d.ubounds == d.Permuted(p).ubounds <==> SameEnds(d, p)
  {
    var e := d.Permuted(p);
    if d.lbounds == e.lbounds && d.ubounds == e.ubounds {
      assert forall k :: 0 <= k < |p| ==> d.lbounds[k] == d.lbounds[p[k]] && d.ubounds[k] == d.ubounds[p[k]];
    }
  }

  /** The two graphs agree on a vector exactly when it is a data dependence or the edge leaves its box alone. */
  lemma VectorAgreesIff(d: DependenceVector, p: seq<int>, active: set<int>, i: int, j: int)
    requires d.Valid() && InRange(p, |p|) && (d.IsData() ==> |d.lbounds| == |p|)
    requires i in active && j in active ==> VectorResult(d, p).Ok?
    ensures VectorAgrees(d, p, active, i, j) <==> d.IsData() || Unaffected(d, p, active, i, j)
  {
    PermutedPartsMeaning(d, p, active, i, j, []);
    StoredPartFits(d, p, active, i, j);
    var e, whole, parts := StoredPart(d, p, active, i, j), Whole(d, p, active, i, j), PermutedParts(d, p, active, i, j);
    SameSetSameBounds(e, whole);
    forall w
      ensures AnyContains(parts, w) <==> whole.Contains(w)
    {
      PermutedPartsMeaning(d, p, active, i, j, w);
    }
  }

  lemma JumbledEndsIff(d: DependenceVector, p: seq<int>)
    requires |d.lbounds| == |d.ubounds|
    ensures d.lbounds == Jumbled(d, p).lbounds && d.ubounds == Jumbled(d, p).ubounds <==> UnknownWhereMoved(d, p)
  {
    var e := Jumbled(d, p);
    assert forall k :: 0 <= k < |p| && k < |d.lbounds| && p[k] != k ==>
           e.lbounds[k] == NegInf && e.ubounds[k] == PosInf;
  }

  /** The two graphs agree on edge (i, j), vector by vector. */
  ghost predicate EdgeAgrees(g: DependenceGraph, p: seq<int>, active: set<int>, i: int, j: int) {
    forall k :: 0 <= k < |g.Edge(i, j)| ==> VectorAgrees(g.Edge(i, j)[k], p, active, i, j)
  }

  /**
   Loop::permute stores another graph than the one DependenceGraph::permute returns.
   On any edge they hold the same distances, vector by vector, exactly when every
   vector that is not a data dependence keeps its box: anywhere outside the permuted
   statements, between them when the permuted ends are the old ones, and across when
   nothing is known where dimensions move.
   */
  lemma StoredGraphAgreesIff(g: DependenceGraph, p: seq<int>, active: set<int>, i: int, j: int)
    requires g.Valid() && g.Fits(|p|) && InRange(p, |p|) && active != {} && g.PermuteResult(p, active).Ok?
    ensures AllFit(g.Edge(i, j), |p|)
    ensures EdgeAgrees(g, p, active, i, j) <==>
            forall k :: 0 <= k < |g.Edge(i, j)| ==>
              g.Edge(i, j)[k].IsData() || Unaffected(g.Edge(i, j)[k], p, active, i, j)
  {
    var ds := g.Edge(i, j);
    g.EdgeFits(i, j, |p|);
    if i in active && j in active {
      GraphPermuteInside(g, p, active, i, j);
      assert !g.RejectedEdge(p, active, i, j);
      ListResultThrows(ds, p);
    }
    forall k | 0 <= k < |ds|
      ensures VectorAgrees(ds[k], p, active, i, j) <==> ds[k].IsData() || Unaffected(ds[k], p, active, i, j)
    {
      VectorResultMeaning(ds[k], p);
      VectorAgreesIff(ds[k], p, active, i, j);
    }
  }

  /** One of the parts of one of the vectors holds w. */
  ghost predicate SomePartContains(ds: seq<DependenceVector>, parts: DependenceVector -> seq<DependenceVector>,
                                   w: seq<int>)
    requires forall k :: 0 <= k < |ds| ==> AllValid(parts(ds[k]))
  {
    exists k :: 0 <= k < |ds| && AnyContains(parts(ds[k]), w)
  }

  lemma SomePartPush(ds: seq<DependenceVector>, d: DependenceVector, parts: DependenceVector -> seq<DependenceVector>,
                     w: seq<int>)
    requires AllValid(parts(d)) && forall k :: 0 <= k < |ds| ==> AllValid(parts(ds[k]))
    ensures forall k :: 0 <= k < |ds + [d]| ==> AllValid(parts((ds + [d])[k]))
    ensures SomePartContains(ds + [d], parts, w) <==> SomePartContains(ds, parts, w) || AnyContains(parts(d), w)
  {
    var all := ds + [d];
    assert forall k :: 0 <= k < |ds| ==> all[k] == ds[k];
    assert all[|ds|] == d;
  }

  lemma {:induction false} PartsOfList(ds: seq<DependenceVector>, parts: DependenceVector -> seq<DependenceVector>,
                                       w: seq<int>)
    requires forall k :: 0 <= k < |ds| ==> AllValid(parts(ds[k]))
    ensures AllValid(Flatten(ds, parts))
    ensures AnyContains(Flatten(ds, parts), w) <==> SomePartContains(ds, parts, w)
  {
    if ds != [] {
      var front, last := ds[..|ds| - 1], ds[|ds| - 1];
      PartsOfList(front, parts, w);
      AnyContainsAppend(Flatten(front, parts), parts(last), w);
      SomePartPush(front, last, parts, w);
      assert ds == front + [last];
    }
  }

  /** Where the graphs agree vector by vector, the edges hold the same distances. */
  lemma StoredGraphAgrees(g: DependenceGraph, p: seq<int>, active: set<int>, i: int, j: int, w: seq<int>)
    requires g.Valid() && active != {} && g.PermuteResult(p, active).Ok?
    requires EdgeAgrees(g, p, active, i, j)
    ensures var stored, permuted := g.Mapped(g.numDim, StoredEdges(p, active)).Edge(i, j),
            g.PermuteResult(p, active).value.Edge(i, j);
            AllValid(stored) && AllValid(permuted) && (AnyContains(stored, w) <==> AnyContains(permuted, w))
  {
    var ds, parts := g.Edge(i, j), PartsOn(p, active, i, j);
    PermutedByVector(g, p, active, i, j);
    StoredByVector(g, p, active, i, j);
    var stored := g.Mapped(g.numDim, StoredEdges(p, active)).Edge(i, j);
    forall k | 0 <= k < |ds|
      ensures stored[k].Valid() && AllValid(parts(ds[k])) && (stored[k].Contains(w) <==> AnyContains(parts(ds[k]), w))
    {
      assert VectorAgrees(ds[k], p, active, i, j);
    }
    PartsOfList(ds, parts, w);
  }

  /**
   Graphs as the program makes them: what is not a data dependence has no intervals
   (chill/loop_unroll.cc:593-597).
   */
  ghost predicate ControlsUnbounded(g: DependenceGraph) {
    forall i, j, k :: 0 <= k < |g.Edge(i, j)| && !g.Edge(i, j)[k].IsData() ==> |g.Edge(i, j)[k].lbounds| == 0
  }

  /** On such graphs both agree on every edge whenever permute returns a graph at all. */
  lemma BuiltGraphsAgree(g: DependenceGraph, p: seq<int>, active: set<int>, i: int, j: int)
    requires g.Valid() && g.Fits(|p|) && InRange(p, |p|) && active != {} && g.PermuteResult(p, active).Ok?
    requires ControlsUnbounded(g)
    ensures EdgeAgrees(g, p, active, i, j)
  {
    StoredGraphAgreesIff(g, p, active, i, j);
  }

  // ---------- Parallel tags ----------

  /** Interchanging twice by pi gives back every level. */
  ghost predicate SelfInverse(pi: seq<int>, level: int)
    requires IsPermutation(Shifted(pi, level), |pi|)
  {
    forall i :: 0 <= i < |pi| ==> 0 <= pi[i] - level < |pi| && pi[pi[i] - level] == level + i
  }

  /** The new levels carry the tags of the old levels that xform moved there. */
  ghost predicate TagsFollow(levels: seq<LoopLevel>, pi: seq<int>, level: int)
    requires 1 <= level && level + |pi| - 1 <= |levels| && IsPermutation(Shifted(pi, level), |pi|)
  {
    forall l :: 0 <= l < |levels| ==>
                  var o := DependencePermutation(pi, level, |levels|)[l];
                  0 <= o < |levels| && PermutedLevels(levels, pi, level)[l].parallelLevel == levels[o].parallelLevel
  }

  lemma TagOfImage(pi: seq<int>, level: int, i: nat)
    requires 1 <= level && IsPermutation(Shifted(pi, level), |pi|) && i < |pi|
    ensures level <= pi[i] < level + |pi| && TagSource(pi, level, pi[i] - 1) == level - 1 + i
  {
    var s := Shifted(pi, level);
    assert 0 <= s[i] < |pi|;
    var o := TagSource(pi, level, pi[i] - 1) - (level - 1);
    assert s[o] == s[i];
    if o < i {
      PermutationIsInjective(s, |pi|, o, i);
    } else if i < o {
      PermutationIsInjective(s, |pi|, i, o);
    }
  }

  lemma SelfInverseMovesTags(pi: seq<int>, level: int, n: nat, l: nat)
    requires 1 <= level && level + |pi| - 1 <= n && IsPermutation(Shifted(pi, level), |pi|)
    requires SelfInverse(pi, level) && l < n
    ensures TagSource(pi, level, l) == DependencePermutation(pi, level, n)[l]
  {
    if level - 1 <= l < level - 1 + |pi| {
      var i := TagSource(pi, level, l) - (level - 1);
      assert pi[i] == l + 1;
      assert pi[pi[i] - level] == level + i;
    }
  }

  /** The tag of a level comes from the level moved there, for every level, exactly when pi is its own inverse. */
  lemma TagSourceIff(pi: seq<int>, level: int, n: nat)
    requires 1 <= level && level + |pi| - 1 <= n && IsPermutation(Shifted(pi, level), |pi|)
    ensures SelfInverse(pi, level) <==>
            forall l :: 0 <= l < n ==> TagSource(pi, level, l) == DependencePermutation(pi, level, n)[l]
  {
    var p := DependencePermutation(pi, level, n);
    if SelfInverse(pi, level) {
      forall l | 0 <= l < n
        ensures TagSource(pi, level, l) == p[l]
      {
        SelfInverseMovesTags(pi, level, n, l);
      }
    }
    if forall l :: 0 <= l < n ==> TagSource(pi, level, l) == p[l] {
      forall i | 0 <= i < |pi|
        ensures 0 <= pi[i] - level < |pi| && pi[pi[i] - level] == level + i
      {
        TagOfImage(pi, level, i);
        assert p[pi[i] - 1] == pi[pi[i] - level] - 1;
      }
    }
  }

  /**
   permute reads the parallel tags through the reverse permutation but moves the
   loops by the permutation itself, so the tags follow their loops for every tag
   table exactly when the permutation is its own inverse.
   */
  lemma TagsFollowLoopsIff(pi: seq<int>, level: int, n: nat)
    requires 1 <= level && level + |pi| - 1 <= n && IsPermutation(Shifted(pi, level), |pi|)
    ensures (forall levels :: PlainLevels(levels, n) && |levels| == n ==> TagsFollow(levels, pi, level)) <==>
            SelfInverse(pi, level)
  {
    var p := DependencePermutation(pi, level, n);
    TagSourceIff(pi, level, n);
    DependencePermutationIsPermutation(pi, level, n);
    if forall levels :: PlainLevels(levels, n) && |levels| == n ==> TagsFollow(levels, pi, level) {
      var numbered := seq(n, l requires 0 <= l < n => LoopLevel(l, l));
      assert PlainLevels(numbered, n);
      assert TagsFollow(numbered, pi, level);
      forall l | 0 <= l < n
        ensures TagSource(pi, level, l) == p[l]
      {
        assert PermutedLevels(numbered, pi, level)[l].parallelLevel == numbered[p[l]].parallelLevel;
      }
    }
  }

  /** Tables without tags, or with the same tag everywhere, lose nothing. */
  lemma EqualTagsFollow(levels: seq<LoopLevel>, pi: seq<int>, level: int, tag: int)
    requires 1 <= level && level + |pi| - 1 <= |levels| && IsPermutation(Shifted(pi, level), |pi|)
    requires forall l :: 0 <= l < |levels| ==> levels[l].parallelLevel == tag
    ensures TagsFollow(levels, pi, level)
    ensures forall l :: 0 <= l < |levels| ==> PermutedLevels(levels, pi, level)[l].parallelLevel == tag
  {
    DependencePermutationIsPermutation(pi, level, |levels|);
  }

  /** No level is tagged parallel, as the program starts: its code assigns no other tag. */
  ghost predicate Untagged(s: LoopState) {
    forall i, l :: 0 <= i < |s.stmt| && 0 <= l < |s.stmt[i].loopLevel| ==> s.stmt[i].loopLevel[l].parallelLevel == 0
  }

  lemma PermuteKeepsUntagged(s: LoopState, active: set<int>, pi: seq<int>, orders: seq<seq<int>>)
    requires s.Valid() && PermutesLevels(pi) && LowestLevel(pi) + |pi| - 1 <= s.numDepDim && OrdersFit(s, orders)
    requires Untagged(s)
    ensures Untagged(PermutedState(s, active, pi, orders))
  {
    var t := PermutedState(s, active, pi, orders);
    forall i | 0 <= i < |t.stmt|
      ensures forall l :: 0 <= l < |t.stmt[i].loopLevel| ==> t.stmt[i].loopLevel[l].parallelLevel == 0
    {
      assert s.stmt[i].Valid(s.numDepDim);
      EqualTagsFollow(s.stmt[i].loopLevel, pi, LowestLevel(pi), 0);
    }
  }

  /** Tags that are never set stay unset in every run, so no run of the program observes a misplaced tag. */
  lemma {:induction false} RunKeepsUntagged(states: seq<LoopState>, ops: seq<Op>, k: nat)
    requires IsRun(states, ops) && k <= |ops| && Untagged(states[0])
    ensures Untagged(states[k])
  {
    if k > 0 {
      RunKeepsUntagged(states, ops, k - 1);
      assert IsStep(states[k - 1], ops[k - 1], states[k]);
      match ops[k - 1] {
        case PermuteOp(active, pi, orders) =>
          PermuteOpIsValid(states[k - 1], active, pi, orders);
          if active != {} && pi != [] {
            PermuteKeepsUntagged(states[k - 1], active, pi, orders);
          }
        case _ =>
      }
    }
  }

  // ---------- The level range permute does not check ----------

  /**
   The argument checks keep the permuted levels in range for every permutation
   exactly when there is more than one active statement.
   */
  lemma LevelRangeCheckedIff(s: LoopState, active: set<int>)
    requires s.InStatements(active) && active != {}
    ensures (forall pi :: PermuteArguments(s, active, pi) ==> LowestLevel(pi) + |pi| - 1 <= s.numDepDim) <==>
            |active| > 1
  {
    if |active| <= 1 {
      var pi := [s.numDepDim + 1];
      SingleLevelAccepted(s, active, s.numDepDim + 1);
      assert PermuteArguments(s, active, pi);
    }
  }

  lemma SingleLevelAccepted(s: LoopState, active: set<int>, level: int)
    requires s.InStatements(active) && active != {} && |active| <= 1 && level >= 1
    ensures PermuteArguments(s, active, [level]) && LowestLevel([level]) == level
  {
    var pi := [level];
    assert LowestLevel(pi) in pi;
    assert Shifted(pi, level) == [0] && 0 in Shifted(pi, level);
    forall a, b | a in active && b in active
      ensures a == b
    {
      if a != b {
        Loop.TwoActive(active, a, b);
      }
    }
  }

  /** One statement with one loop: interchanging levels 1 and 2 passes the checks. */
  lemma MissingLevelAccepted(s: LoopState)
    requires s.Valid() && |s.stmt| == 1 && s.numDepDim == 1
    ensures PermuteArguments(s, {0}, [1, 2]) && LowestLevel([1, 2]) + 2 - 1 > s.numDepDim
  {
    var pi := [1, 2];
    assert LowestLevel(pi) in pi && LowestLevel(pi) <= pi[0];
    var shifted := Shifted(pi, 1);
    assert shifted[0] == 0 && shifted[1] == 1;
  }

  // ---------- What skew's exception means ----------

  /** The scan canPermute makes with the identity: a lower end below zero before any above zero. */
  predicate LowerScanNegative(d: DependenceVector)
    requires |d.lbounds| == |d.ubounds|
  {
    exists i :: 0 <= i < |d.lbounds| && d.lbounds[i].BelowZero() && forall j :: 0 <= j < i ==> !d.lbounds[j].AboveZero()
  }

  lemma FirstDecision(d: DependenceVector, i: nat) returns (k: nat)
    requires d.Valid() && i < |d.lbounds| && d.lbounds[i].BelowZero()
    requires forall j :: 0 <= j < i ==> !d.lbounds[j].AboveZero()
    ensures k <= i && d.lbounds[k].BelowZero() && forall j :: 0 <= j < k ==> d.lbounds[j] == ZERO
    decreases i
  {
    if j :| 0 <= j < i && d.lbounds[j].BelowZero() {
      k := FirstDecision(d, j);
    } else {
      k := i;
    }
  }

  /** A vector admits a negative distance exactly when the scan of its lower ends says so. */
  lemma NegativeIff(d: DependenceVector)
    requires d.Valid()
    ensures d.HasLexNegative() <==> LowerScanNegative(d)
  {
    if LowerScanNegative(d) {
      var i: nat :| 0 <= i < |d.lbounds| && d.lbounds[i].BelowZero()
                    && forall j :: 0 <= j < i ==> !d.lbounds[j].AboveZero();
      var k := FirstDecision(d, i);
      var v := d.ZeroPrefixThen(k, if d.ubounds[k].BelowZero() then d.ubounds[k].v else -1);
      assert NegativeAt(v, k);
    }
    if d.HasLexNegative() {
      var v :| d.Contains(v) && LexNegative(v);
      var k: nat :| NegativeAt(v, k);
      assert d.lbounds[k].BelowZero();
      assert forall j :: 0 <= j < k ==> Within(d.lbounds[j], d.ubounds[j], 0);
    }
  }

  lemma HighBelowZeroIff(d: DependenceVector, amounts: seq<int>)
    requires d.Valid() && Applicable(amounts, |d.lbounds|)
    ensures SkewHigh(d, amounts, |amounts|).BelowZero() <==>
            forall v :: d.Contains(v) ==> WeightedSum(amounts, v, |amounts|) < 0
  {
    HighSideExact(d, amounts);
    if SkewHigh(d, amounts, |amounts|).PosInf? {
      assert GoesAbove(d, amounts, 0);
    }
  }

  /** The intervals before the skewed level, and with them the zero prefix test, are unchanged. */
  lemma SkewedPrefix(d: DependenceVector, dim: nat, low: Bound, high: Bound)
    requires d.Valid() && dim < |d.lbounds|
    ensures d.WithInterval(dim, low, high).MayBeZeroUpTo(dim) <==> exists v :: d.Contains(v) && ZeroUpTo(v, dim)
  {
    d.ZeroPrefixMember(dim);
    var e := d.WithInterval(dim, low, high);
    assert forall i :: 0 <= i < dim ==> e.lbounds[i] == d.lbounds[i] && e.ubounds[i] == d.ubounds[i];
  }

  /**
   skew throws on a data dependence exactly when it is not quasi, some distance has
   nothing before the skewed level, and every distance becomes negative there.
   */
  lemma SkewThrowsIff(d: DependenceVector, dim: nat, amounts: seq<int>)
    requires d.Valid() && d.IsData() && dim < |d.lbounds| && Applicable(amounts, |d.lbounds|)
    ensures SkewVector(d, dim, amounts).Throw? <==>
            && !d.quasi
            && (exists v :: d.Contains(v) && ZeroUpTo(v, dim))
            && (forall v :: d.Contains(v) ==> WeightedSum(amounts, v, |amounts|) < 0)
  {
    var low, high := SkewLow(d, amounts, |amounts|), SkewHigh(d, amounts, |amounts|);
    assert Interval(low, high) by { SkewIntervalExact(d, amounts); }
    SkewedPrefix(d, dim, low, high);
    HighBelowZeroIff(d, amounts);
    var e := d.WithInterval(dim, low, high);
    assert e.CarriedWithin(dim, PosInf) <==> e.MayBeZeroUpTo(dim);
  }

  // ---------- When a skew leaves a negative distance ----------

  /**
   The skewed box admits a negative distance exactly when the scan of the old lower ends
   with the new one in place says so.
   */
  lemma SkewedBoxNegativeIff(d: DependenceVector, dim: nat, amounts: seq<int>)
    requires d.Valid() && d.IsData() && dim < |d.lbounds| && Applicable(amounts, |d.lbounds|)
    requires SkewVector(d, dim, amounts).Ok?
    ensures SkewVector(d, dim, amounts).value.Valid()
    ensures SkewVector(d, dim, amounts).value.HasLexNegative() <==>
            LowerScanNegative(d.(lbounds := d.lbounds[dim := SkewLow(d, amounts, |amounts|)]))
  {
    SkewVectorFits(d, dim, amounts);
    NegativeIff(SkewVector(d, dim, amounts).value);
  }

  /** The members of the box with nothing before dim. */
  function ZeroBefore(d: DependenceVector, dim: nat): (e: DependenceVector)
    requires |d.lbounds| == |d.ubounds| && dim <= |d.lbounds|
    ensures |e.lbounds| == |e.ubounds| == |d.lbounds|
  {
    d.(lbounds := seq(|d.lbounds|, j requires 0 <= j < |d.lbounds| => if j < dim then ZERO else d.lbounds[j]),
       ubounds := seq(|d.ubounds|, j requires 0 <= j < |d.ubounds| => if j < dim then ZERO else d.ubounds[j]))
  }

  /** Component j takes part in the sum and its low end is finite. */
  predicate Tight(d: DependenceVector, amounts: seq<int>, j: nat)
    requires j < |d.lbounds| == |d.ubounds|
  {
    j < |amounts| && amounts[j] != 0 && LowEnd(d, amounts[j], j).Fin?
  }

  /**
   The distances a skew can make negative, one interval after the other: before dim
   the old ones; at dim the least sum with nothing before it; after dim the old ones,
   pinned to their low end where they take part in the sum, because a sum of zero
   above a least sum of zero leaves them no other value.
   */
  function WorstSkew(d: DependenceVector, dim: nat, amounts: seq<int>): (e: DependenceVector)
    requires dim < |d.lbounds| == |d.ubounds| && Applicable(amounts, |d.lbounds|)
    ensures |e.lbounds| == |e.ubounds| == |d.lbounds|
  {
    d.(lbounds := seq(|d.lbounds|, j requires 0 <= j < |d.lbounds| =>
         if j == dim then SkewLow(ZeroBefore(d, dim), amounts, |amounts|)
         else if j > dim && Tight(d, amounts, j) then LowEnd(d, amounts[j], j)
         else d.lbounds[j]),
       ubounds := seq(|d.ubounds|, j requires 0 <= j < |d.ubounds| =>
         if j == dim then PosInf
         else if j > dim && Tight(d, amounts, j) then LowEnd(d, amounts[j], j)
         else d.ubounds[j]))
  }

  lemma EqualFactors(a: int, x: int, y: int)
    requires a != 0 && a * x == a * y
    ensures x == y
  {
    assert a * (x - y) == 0;
  }

  /** A member that reaches the least sum has every component of the sum at its low end. */
  lemma {:induction false} LeastSumIsTight(d: DependenceVector, amounts: seq<int>, v: seq<int>, k: nat, j: nat)
    requires d.Valid() && k <= |amounts| && Applicable(amounts, |d.lbounds|) && d.Contains(v)
    requires SkewLow(d, amounts, k) == Fin(WeightedSum(amounts, v, k))
    requires j < k && amounts[j] != 0
    ensures LowEnd(d, amounts[j], j) == Fin(v[j])
  {
    var a, i := amounts[k - 1], k - 1;
    SkewLowSound(d, amounts, v, i);
    if a != 0 {
      EndIsLow(d, a, i, v[i]);
      var end := LowEnd(d, a, i);
      assert end.Fin? && a * end.v == a * v[i];
      EqualFactors(a, end.v, v[i]);
    }
    if j < i {
      LeastSumIsTight(d, amounts, v, i, j);
    }
  }

  /** Conversely, such a member reaches the least sum. */
  lemma {:induction false} TightReachesLeast(d: DependenceVector, amounts: seq<int>, v: seq<int>, k: nat)
    requires |d.lbounds| == |d.ubounds| == |v| && k <= |amounts| && Applicable(amounts, |d.lbounds|)
    requires forall j :: 0 <= j < k && amounts[j] != 0 ==> LowEnd(d, amounts[j], j) == Fin(v[j])
    ensures SkewLow(d, amounts, k) == Fin(WeightedSum(amounts, v, k))
  {
    if k > 0 {
      TightReachesLeast(d, amounts, v, k - 1);
    }
  }

  lemma {:induction false} FiniteLeastEnds(d: DependenceVector, amounts: seq<int>, k: nat, j: nat)
    requires |d.lbounds| == |d.ubounds| && k <= |amounts| && Applicable(amounts, |d.lbounds|)
    requires SkewLow(d, amounts, k).Fin? && j < k && amounts[j] != 0
    ensures LowEnd(d, amounts[j], j).Fin?
  {
    if j < k - 1 {
      FiniteLeastEnds(d, amounts, k - 1, j);
    }
  }

  lemma WorstIsValid(d: DependenceVector, dim: nat, amounts: seq<int>)
    requires d.Valid() && dim < |d.lbounds| && Applicable(amounts, |d.lbounds|)
    ensures WorstSkew(d, dim, amounts).Valid()
  {
    var e := WorstSkew(d, dim, amounts);
    forall j | 0 <= j < |e.lbounds|
      ensures Interval(e.lbounds[j], e.ubounds[j])
    {
      assert Interval(d.lbounds[j], d.ubounds[j]);
      if j == dim {
        var low := SkewLow(ZeroBefore(d, dim), amounts, |amounts|);
        assert !low.PosInf? && e.lbounds[j] == low;
      }
    }
  }

  ghost predicate SkewedNegative(d: DependenceVector, dim: nat, amounts: seq<int>)
    requires d.Valid() && dim < |d.lbounds| && Applicable(amounts, |d.lbounds|)
  {
    exists v :: d.Contains(v) && LexNegative(SkewPoint(v, dim, amounts))
  }

  /** A negative skewed distance shows up in the scan. */
  lemma NegativeIsScanned(d: DependenceVector, dim: nat, amounts: seq<int>, v: seq<int>, k: nat)
    requires d.Valid() && dim < |d.lbounds| && Applicable(amounts, |d.lbounds|)
    requires d.Contains(v) && NegativeAt(SkewPoint(v, dim, amounts), k)
    ensures LowerScanNegative(WorstSkew(d, dim, amounts))
  {
    var e, w, z := WorstSkew(d, dim, amounts), SkewPoint(v, dim, amounts), ZeroBefore(d, dim);
    assert forall j :: 0 <= j < dim ==> e.lbounds[j] == d.lbounds[j];
    assert forall j :: 0 <= j < k && j != dim ==> v[j] == 0;
    assert forall j :: 0 <= j < |v| ==> Within(d.lbounds[j], d.ubounds[j], v[j]);
    if k < dim {
      assert e.lbounds[k].BelowZero();
    } else {
      assert z.Valid() && z.Contains(v);
      SkewLowSound(z, amounts, v, |amounts|);
      assert e.lbounds[dim] == SkewLow(z, amounts, |amounts|);
      if e.lbounds[dim].BelowZero() {
        assert forall j :: 0 <= j < dim ==> !e.lbounds[j].AboveZero();
      } else {
        assert w[dim] == WeightedSum(amounts, v, |amounts|) == 0 && k > dim;
        forall j | dim < j <= k
          ensures e.lbounds[j].AtMost(v[j])
        {
          if Tight(d, amounts, j) {
            LeastSumIsTight(z, amounts, v, |amounts|, j);
          }
        }
        assert e.lbounds[k].BelowZero();
      }
    }
  }

  lemma ZeroBeforeMember(d: DependenceVector, dim: nat, v: seq<int>)
    requires d.Valid() && dim < |d.lbounds| && d.MayBeZeroUpTo(dim) && ZeroBefore(d, dim).Contains(v)
    ensures d.Contains(v) && forall j :: 0 <= j < dim ==> v[j] == 0
  {
    var z := ZeroBefore(d, dim);
    assert forall j :: 0 <= j < |v| ==> Within(z.lbounds[j], z.ubounds[j], v[j]);
  }

  /** The scan finds a negative distance at dim. */
  lemma ScannedAtDim(d: DependenceVector, dim: nat, amounts: seq<int>)
    requires d.Valid() && dim < |d.lbounds| && Applicable(amounts, |d.lbounds|)
    requires d.MayBeZeroUpTo(dim) && SkewLow(ZeroBefore(d, dim), amounts, |amounts|).BelowZero()
    ensures SkewedNegative(d, dim, amounts)
  {
    var z := ZeroBefore(d, dim);
    var v := SkewLowTight(z, amounts, |amounts|, -1);
    ZeroBeforeMember(d, dim, v);
    assert NegativeAt(SkewPoint(v, dim, amounts), dim);
  }

  /** The scan finds one after dim: every component of the sum is at its low end. */
  lemma ScannedAfterDim(d: DependenceVector, dim: nat, amounts: seq<int>, k: nat)
    requires d.Valid() && dim < k < |d.lbounds| && Applicable(amounts, |d.lbounds|)
    requires var e := WorstSkew(d, dim, amounts);
             e.lbounds[k].BelowZero() && forall j :: 0 <= j < k ==> e.lbounds[j] == ZERO
    ensures SkewedNegative(d, dim, amounts)
  {
    var e, z := WorstSkew(d, dim, amounts), ZeroBefore(d, dim);
    assert e.lbounds[dim] == SkewLow(z, amounts, |amounts|) == ZERO;
    forall j | 0 <= j < |amounts| && amounts[j] != 0
      ensures LowEnd(z, amounts[j], j).Fin?
    {
      FiniteLeastEnds(z, amounts, |amounts|, j);
    }
    var v := seq(|d.lbounds|, j requires 0 <= j < |d.lbounds| =>
      if j < |amounts| && amounts[j] != 0 then LowEnd(z, amounts[j], j).v
      else if j < dim then 0
      else if j == k then (if d.ubounds[j].BelowZero() then d.ubounds[j].v else -1)
      else Nearest(d.lbounds[j], d.ubounds[j]));
    forall j | 0 <= j < |d.lbounds|
      ensures Within(d.lbounds[j], d.ubounds[j], v[j])
      ensures j < k && j != dim ==> v[j] == 0
      ensures j == k ==> v[j] < 0
    {
      assert j < k ==> e.lbounds[j] == ZERO;
    }
    TightReachesLeast(z, amounts, v, |amounts|);
    assert d.Contains(v);
    assert NegativeAt(SkewPoint(v, dim, amounts), k);
  }

  /**
   Exactly when a skew turns some distance around, whether it throws or not: the
   scan canPermute makes, over the worst intervals, meets an end below zero before
   one above zero.
   */
  lemma SkewIsIllegalIff(d: DependenceVector, dim: nat, amounts: seq<int>)
    requires d.Valid() && dim < |d.lbounds| && Applicable(amounts, |d.lbounds|)
    ensures SkewedNegative(d, dim, amounts) <==> LowerScanNegative(WorstSkew(d, dim, amounts))
  {
    var e := WorstSkew(d, dim, amounts);
    if SkewedNegative(d, dim, amounts) {
      var v :| d.Contains(v) && LexNegative(SkewPoint(v, dim, amounts));
      var k: nat :| NegativeAt(SkewPoint(v, dim, amounts), k);
      NegativeIsScanned(d, dim, amounts, v, k);
    }
    if LowerScanNegative(e) {
      var i: nat :| i < |e.lbounds| && e.lbounds[i].BelowZero() && forall j :: 0 <= j < i ==> !e.lbounds[j].AboveZero();
      WorstIsValid(d, dim, amounts);
      var k := FirstDecision(e, i);
      forall j | 0 <= j < dim && j < k
        ensures d.lbounds[j] == ZERO && Within(d.lbounds[j], d.ubounds[j], 0)
      {
        assert e.lbounds[j] == d.lbounds[j] && Interval(d.lbounds[j], d.ubounds[j]);
      }
      if k < dim {
        var v := d.ZeroPrefixThen(k, if d.ubounds[k].BelowZero() then d.ubounds[k].v else -1);
        assert NegativeAt(SkewPoint(v, dim, amounts), k);
      } else if k == dim {
        ScannedAtDim(d, dim, amounts);
      } else {
        ScannedAfterDim(d, dim, amounts, k);
      }
    }
  }

  /** skew throws only for vectors it would turn around. */
  lemma ThrowIsJustified(d: DependenceVector, dim: nat, amounts: seq<int>)
    requires d.Valid() && d.IsData() && dim < |d.lbounds| && Applicable(amounts, |d.lbounds|)
    requires SkewVector(d, dim, amounts).Throw?
    ensures SkewedNegative(d, dim, amounts)
  {
    SkewThrowsIff(d, dim, amounts);
    var v :| d.Contains(v) && ZeroUpTo(v, dim);
    assert NegativeAt(SkewPoint(v, dim, amounts), dim);
  }

  /**
   An accepted skew can still admit negative distances: (1, -2..0) skewed at level 1
   by (1, 1) becomes (-1..1, -2..0) without an exception.
   */
  lemma AcceptedSkewCanBeIllegal()
    ensures var d := DependenceVector(W2R, [ONE, Fin(-2)], [ONE, ZERO], false, false);
            && d.Valid() && !d.HasLexNegative()
            && SkewVector(d, 0, [1, 1]).Ok?
            && SkewVector(d, 0, [1, 1]).value.Valid() && SkewVector(d, 0, [1, 1]).value.HasLexNegative()
  {
    var d := DependenceVector(W2R, [ONE, Fin(-2)], [ONE, ZERO], false, false);
    NegativeIff(d);
    assert SkewLow(d, [1, 1], 0) == ZERO && SkewHigh(d, [1, 1], 0) == ZERO;
    assert SkewLow(d, [1, 1], 1) == ONE && SkewHigh(d, [1, 1], 1) == ONE;
    assert SkewLow(d, [1, 1], 2) == Fin(-1) && SkewHigh(d, [1, 1], 2) == ONE;
    var e := SkewVector(d, 0, [1, 1]).value;
    assert e.lbounds[0] == Fin(-1) && e.ubounds[0] == ONE && e.lbounds[1] == Fin(-2) && e.ubounds[1] == ZERO;
    assert e.Valid();
    NegativeIff(e);
  }

  /**
   The skewed box can admit a negative distance although no distance is turned
   around: (0..1, 0) skewed at level 2 by (-1, 1) becomes (0..1, -1..0), whose
   (0, -1) is no skewed distance.
   */
  lemma SkewedBoxOverstates()
    ensures var d := DependenceVector(W2R, [ZERO, ZERO], [ONE, ZERO], false, false);
            && d.Valid() && SkewVector(d, 1, [-1, 1]).Ok?
            && SkewVector(d, 1, [-1, 1]).value.Valid() && SkewVector(d, 1, [-1, 1]).value.HasLexNegative()
            && !SkewedNegative(d, 1, [-1, 1])
  {
    var d, a := DependenceVector(W2R, [ZERO, ZERO], [ONE, ZERO], false, false), [-1, 1];
    var z := ZeroBefore(d, 1);
    assert SkewLow(d, a, 0) == ZERO && SkewHigh(d, a, 0) == ZERO && SkewLow(z, a, 0) == ZERO;
    assert SkewLow(d, a, 1) == Fin(-1) && SkewHigh(d, a, 1) == ZERO && SkewLow(z, a, 1) == ZERO;
    assert SkewLow(d, a, 2) == Fin(-1) && SkewHigh(d, a, 2) == ZERO && SkewLow(z, a, 2) == ZERO;
    var e := SkewVector(d, 1, a).value;
    assert e.lbounds[0] == ZERO && e.lbounds[1] == Fin(-1) && e.ubounds[0] == ONE && e.ubounds[1] == ZERO;
    NegativeIff(e);
    SkewIsIllegalIff(d, 1, a);
  }
}
