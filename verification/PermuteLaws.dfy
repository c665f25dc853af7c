/**
 What Loop::permute does, said about statements, distances and flags alone: the
 level pi[k] becomes level + k, on every schedule and in every distance of a
 permuted pair; a pair with one permuted end keeps what it knows about the other
 levels; kinds and flags stay. The same for what an exception leaves behind, and
 for the labels over whole runs.
 */
module PermuteLaws {
  import opened Outcomes
  import opened Bounds
  import opened Lexicographic
  import opened Lists
  import opened Permutations
  import opened DependenceVectors
  import opened DependenceGraphs
  import opened LoopStates
  import opened Loops
  import opened LoopFacts

  // ---------- The words the laws use ----------

  /** w is v with entry pi[k] (from 1) moved to entry level + k, everything else in place. */
  ghost predicate MovedBy<T(!new)>(v: seq<T>, w: seq<T>, pi: seq<int>, level: int) {
    && |v| == |w| && level >= 1
    && (forall k :: 0 <= k < |pi| ==> 1 <= pi[k] <= |v| && level - 1 + k < |w| && w[level - 1 + k] == v[pi[k] - 1])
    && (forall d :: 0 <= d < |v| && !(level - 1 <= d < level - 1 + |pi|) ==> w[d] == v[d])
  }

  /** v and w agree in every entry pi does not move. */
  ghost predicate AgreeUnmoved(v: seq<int>, w: seq<int>, pi: seq<int>, level: int) {
    && |v| == |w|
    && forall d :: 0 <= d < |v| && !(level - 1 <= d < level - 1 + |pi| && pi[d - (level - 1)] != d + 1) ==> w[d] == v[d]
  }

  /** pi lists the |pi| levels from level on, in some order. */
  ghost predicate ListsLevels(pi: seq<int>, level: int) {
    level >= 1 && pi != [] && forall l :: level <= l < level + |pi| ==> l in pi
  }

  /** What becomes of one vector between two statements, by which of them are permuted. */
  ghost predicate VectorMoved(d: DependenceVector, e: DependenceVector, pi: seq<int>, level: int, source: bool,
                              destination: bool)
    requires d.Valid()
  {
    && e.Valid() && e.kind == d.kind && e.quasi == d.quasi && e.scalar == d.scalar
    && (!d.IsData() || (!source && !destination) ==> e == d)
    && (d.IsData() && source && destination ==> HoldsMoved(d, e, pi, level))
    && (d.IsData() && source != destination ==> HoldsAgreeing(d, e, pi, level))
  }

  /** e holds the distances of d, moved. */
  ghost predicate HoldsMoved(d: DependenceVector, e: DependenceVector, pi: seq<int>, level: int)
    requires d.Valid() && e.Valid()
  {
    |e.lbounds| == |d.lbounds| && forall v, w :: MovedBy(v, w, pi, level) ==> (e.Contains(w) <==> d.Contains(v))
  }

  /** e holds whatever agrees with a distance of d in the entries that are not moved. */
  ghost predicate HoldsAgreeing(d: DependenceVector, e: DependenceVector, pi: seq<int>, level: int)
    requires d.Valid() && e.Valid()
  {
    forall w :: e.Contains(w) <==> exists v :: d.Contains(v) && AgreeUnmoved(v, w, pi, level)
  }

  ghost predicate ListMoved(ds: seq<DependenceVector>, es: seq<DependenceVector>, pi: seq<int>, level: int,
                            source: bool, destination: bool) {
    && AllValid(ds) && |es| == |ds|
    && forall k :: 0 <= k < |ds| ==> VectorMoved(ds[k], es[k], pi, level, source, destination)
  }

  /** A distance between permuted statements that would be turned around. */
  ghost predicate TurnsAround(d: DependenceVector, pi: seq<int>, level: int)
    requires d.Valid()
  {
    exists v, w :: d.Contains(v) && MovedBy(v, w, pi, level) && LexNegative(w)
  }

  // ---------- One vector ----------

  lemma LevelsInPlace(pi: seq<int>, level: int, n: nat)
    requires 1 <= level && level + |pi| - 1 <= n && IsPermutation(Shifted(pi, level), |pi|)
    ensures forall k :: 0 <= k < |pi| ==> level <= pi[k] < level + |pi|
    ensures var p := DependencePermutation(pi, level, n);
            && IsPermutation(p, n)
            && (forall k :: 0 <= k < |pi| ==> p[level - 1 + k] == pi[k] - 1)
            && (forall d :: 0 <= d < n && !(level - 1 <= d < level - 1 + |pi|) ==> p[d] == d)
  {
    DependencePermutationIsPermutation(pi, level, n);
    var s := Shifted(pi, level);
    forall k | 0 <= k < |pi|
      ensures level <= pi[k] < level + |pi|
    {
      assert 0 <= s[k] < |pi|;
    }
  }

  /** Moving by pi is rearranging by the permutation of all dimensions. */
  lemma MovedIsRearranged<T(!new)>(v: seq<T>, w: seq<T>, pi: seq<int>, level: int, p: seq<int>)
    requires 1 <= level && level + |pi| - 1 <= |v| && IsPermutation(Shifted(pi, level), |pi|)
    requires p == DependencePermutation(pi, level, |v|)
    ensures InRange(p, |v|) && (MovedBy(v, w, pi, level) <==> w == Rearranged(v, p))
  {
    LevelsInPlace(pi, level, |v|);
    if MovedBy(v, w, pi, level) {
      forall d | 0 <= d < |v|
        ensures w[d] == v[p[d]]
      {
        if level - 1 <= d < level - 1 + |pi| {
          assert d == level - 1 + (d - (level - 1));
        }
      }
    }
    if w == Rearranged(v, p) {
      forall k | 0 <= k < |pi|
        ensures w[level - 1 + k] == v[pi[k] - 1]
      {
        assert w[level - 1 + k] == v[p[level - 1 + k]];
      }
    }
  }

  lemma PermutedHolds(d: DependenceVector, p: seq<int>, v: seq<int>)
    requires d.Valid() && IsPermutation(p, |d.lbounds|) && |v| == |p|
    ensures d.Permuted(p).Contains(Rearranged(v, p)) <==> d.Contains(v)
  {
    if d.Permuted(p).Contains(Rearranged(v, p)) {
      forall k | 0 <= k < |v|
        ensures Within(d.lbounds[k], d.ubounds[k], v[k])
      {
        var i := PositionOf(p, k);
        assert Rearranged(v, p)[i] == v[k];
      }
    }
  }

  lemma PermutedIsMoved(d: DependenceVector, pi: seq<int>, level: int, p: seq<int>)
    requires d.Valid() && 1 <= level && level + |pi| - 1 <= |d.lbounds|
    requires IsPermutation(Shifted(pi, level), |pi|) && p == DependencePermutation(pi, level, |d.lbounds|)
    ensures InRange(p, |d.lbounds|) && HoldsMoved(d, d.Permuted(p), pi, level)
  {
    LevelsInPlace(pi, level, |d.lbounds|);
    forall v, w | MovedBy(v, w, pi, level)
      ensures d.Permuted(p).Contains(w) <==> d.Contains(v)
    {
      if |v| == |d.lbounds| {
        MovedIsRearranged(v, w, pi, level, p);
        PermutedHolds(d, p, v);
      }
    }
  }

  lemma JumbledAgrees(d: DependenceVector, pi: seq<int>, level: int, p: seq<int>, w: seq<int>)
    requires d.Valid() && 1 <= level && level + |pi| - 1 <= |d.lbounds|
    requires IsPermutation(Shifted(pi, level), |pi|) && p == DependencePermutation(pi, level, |d.lbounds|)
    ensures Jumbled(d, p).Valid()
    ensures Jumbled(d, p).Contains(w) <==> exists v :: d.Contains(v) && AgreeUnmoved(v, w, pi, level)
  {
    LevelsInPlace(pi, level, |d.lbounds|);
    JumbledMeaning(d, p, w);
    if StaysWithin(d, p, w) {
      var near := d.NearestMember();
      var v := seq(|w|, k requires 0 <= k < |w| => if p[k] == k then w[k] else near[k]);
      assert d.Contains(v) && AgreeUnmoved(v, w, pi, level);
    }
    if v :| d.Contains(v) && AgreeUnmoved(v, w, pi, level) {
      forall k | 0 <= k < |w| && (k < |p| ==> p[k] == k)
        ensures Within(d.lbounds[k], d.ubounds[k], w[k])
      {
        if level - 1 <= k < level - 1 + |pi| {
          assert p[level - 1 + (k - (level - 1))] == pi[k - (level - 1)] - 1;
        }
        assert w[k] == v[k];
      }
    }
  }

  lemma JumbledIsAgreeing(d: DependenceVector, pi: seq<int>, level: int, p: seq<int>)
    requires d.Valid() && 1 <= level && level + |pi| - 1 <= |d.lbounds|
    requires IsPermutation(Shifted(pi, level), |pi|) && p == DependencePermutation(pi, level, |d.lbounds|)
    ensures Jumbled(d, p).Valid() && HoldsAgreeing(d, Jumbled(d, p), pi, level)
  {
    JumbledAgrees(d, pi, level, p, []);
    forall w
      ensures Jumbled(d, p).Contains(w) <==> exists v :: d.Contains(v) && AgreeUnmoved(v, w, pi, level)
    {
      JumbledAgrees(d, pi, level, p, w);
    }
  }

  lemma StoredPartMoved(d: DependenceVector, pi: seq<int>, level: int, p: seq<int>, active: set<int>, i: int, j: int)
    requires d.Valid() && (d.IsData() ==> |d.lbounds| == |p|)
    requires 1 <= level && level + |pi| - 1 <= |p| && IsPermutation(Shifted(pi, level), |pi|)
    requires p == DependencePermutation(pi, level, |p|)
    ensures VectorMoved(d, StoredPart(d, p, active, i, j), pi, level, i in active, j in active)
  {
    LevelsInPlace(pi, level, |p|);
    if d.IsData() {
      PermutedIsMoved(d, pi, level, p);
      JumbledIsAgreeing(d, pi, level, p);
    }
  }

  // ---------- Statements and graph ----------

  /** The constants before the loops from level on. */
  function Outer(order: seq<int>, level: int): seq<int>
    requires level >= 1
  {
    if level - 1 <= |order| then order[..level - 1] else order
  }

  function Tags(levels: seq<LoopLevel>): (tags: seq<int>)
    ensures |tags| == |levels|
  {
    seq(|levels|, l requires 0 <= l < |levels| => levels[l].parallelLevel)
  }

  /** The rows of the iteration map are moved. */
  ghost predicate RowsMoved(s: Statement, t: Statement, pi: seq<int>, level: int) {
    MovedBy(s.xform, t.xform, pi, level)
  }

  /** Levels are numbered as before, and the tags are moved the other way. */
  ghost predicate TagsMovedBack(s: Statement, t: Statement, pi: seq<int>, level: int) {
    && MovedBy(Tags(t.loopLevel), Tags(s.loopLevel), pi, level)
    && forall l :: 0 <= l < |t.loopLevel| ==> t.loopLevel[l].payload == l
  }

  /** On every edge the vectors are moved, one by one. */
  ghost predicate GraphMoved(g: DependenceGraph, h: DependenceGraph, active: set<int>, pi: seq<int>, level: int) {
    && h.numDim == g.numDim && |h.vertex| == |g.vertex|
    && forall i, j :: ListMoved(g.Edge(i, j), h.Edge(i, j), pi, level, i in active, j in active)
  }

  lemma TagsThroughSource(tags: seq<int>, moved: seq<int>, pi: seq<int>, level: int)
    requires 1 <= level && level + |pi| - 1 <= |tags| == |moved| && IsPermutation(Shifted(pi, level), |pi|)
    requires forall l :: 0 <= l < |tags| ==> 0 <= TagSource(pi, level, l) < |tags|
    requires forall l :: 0 <= l < |tags| ==> moved[l] == tags[TagSource(pi, level, l)]
    ensures MovedBy(moved, tags, pi, level)
  {
    forall k | 0 <= k < |pi|
      ensures 1 <= pi[k] <= |tags| && tags[level - 1 + k] == moved[pi[k] - 1]
    {
      TagOfImage(pi, level, k);
    }
  }

  lemma TagsFromBack(s: Statement, n: nat, pi: seq<int>, level: int, levels: seq<LoopLevel>)
    requires s.Valid(n) && 1 <= level && level + |pi| - 1 <= n && IsPermutation(Shifted(pi, level), |pi|)
    requires levels == PermutedLevels(s.loopLevel, pi, level)
    ensures TagsMovedBack(s, s.(loopLevel := levels), pi, level)
  {
    TagsThroughSource(Tags(s.loopLevel), Tags(levels), pi, level);
  }

  lemma StatementMoved(s: Statement, n: nat, pi: seq<int>, level: int, order: seq<int>, t: Statement)
    requires s.Valid(n) && 1 <= level && level + |pi| - 1 <= n && IsPermutation(Shifted(pi, level), |pi|)
    requires t == PermutedStatement(s, pi, level, order)
    ensures RowsMoved(s, t, pi, level) && TagsMovedBack(s, t, pi, level) && t.order == order
    ensures t.(loopLevel := s.loopLevel, order := s.order) == WithPermutedXform(s, pi, level)
  {
    var p := DependencePermutation(pi, level, n);
    LevelsInPlace(pi, level, n);
    MovedIsRearranged(s.xform, Rearranged(s.xform, p), pi, level, p);
    TagsFromBack(s, n, pi, level, t.loopLevel);
    assert TagsMovedBack(s, s.(loopLevel := t.loopLevel), pi, level);
  }

  lemma StoredListMoved(g: DependenceGraph, pi: seq<int>, level: int, p: seq<int>, active: set<int>, i: int, j: int)
    requires g.Valid() && g.Fits(|p|)
    requires 1 <= level && level + |pi| - 1 <= |p| && IsPermutation(Shifted(pi, level), |pi|)
    requires p == DependencePermutation(pi, level, |p|)
    ensures ListMoved(g.Edge(i, j), g.Mapped(g.numDim, StoredEdges(p, active)).Edge(i, j), pi, level, i in active,
            j in active)
  {
    var ds := g.Edge(i, j);
    g.EdgeFits(i, j, |p|);
    StoredByVector(g, p, active, i, j);
    forall k | 0 <= k < |ds|
      ensures VectorMoved(ds[k], StoredPart(ds[k], p, active, i, j), pi, level, i in active, j in active)
    {
      StoredPartMoved(ds[k], pi, level, p, active, i, j);
    }
  }

  lemma StoredGraphMoved(g: DependenceGraph, pi: seq<int>, level: int, p: seq<int>, active: set<int>,
                         h: DependenceGraph)
    requires g.Valid() && g.Fits(|p|)
    requires 1 <= level && level + |pi| - 1 <= |p| && IsPermutation(Shifted(pi, level), |pi|)
    requires p == DependencePermutation(pi, level, |p|) && h == g.Mapped(g.numDim, StoredEdges(p, active))
    ensures GraphMoved(g, h, active, pi, level)
  {
    forall i, j
      ensures ListMoved(g.Edge(i, j), h.Edge(i, j), pi, level, i in active, j in active)
    {
      StoredListMoved(g, pi, level, p, active, i, j);
    }
  }

  /**
   permute, when it does not throw: schedules and distances are moved, tags are moved the
   other way, the labels of all vectors stay.
   */
  lemma PermuteMoves(s: LoopState, active: set<int>, pi: seq<int>, orders: seq<seq<int>>, t: LoopState)
    requires s.Valid() && OrdersFit(s, orders) && PermuteInBounds(s, active, pi) && active != {} && pi != []
    requires PermuteOutcome(s, active, pi, Ok(orders)) == Ok(t)
    ensures |t.stmt| == |s.stmt| && t.numDepDim == s.numDepDim
    ensures forall i :: 0 <= i < |s.stmt| && i !in active ==> t.stmt[i] == s.stmt[i]
    ensures forall i :: 0 <= i < |s.stmt| && i in active ==>
              RowsMoved(s.stmt[i], t.stmt[i], pi, LowestLevel(pi))
              && TagsMovedBack(s.stmt[i], t.stmt[i], pi, LowestLevel(pi)) && t.stmt[i].order == orders[i]
    ensures GraphMoved(s.dep, t.dep, active, pi, LowestLevel(pi))
  {
    var level := LowestLevel(pi);
    assert t == PermutedState(s, active, pi, orders);
    forall i | 0 <= i < |s.stmt| && i in active
      ensures RowsMoved(s.stmt[i], t.stmt[i], pi, level) && TagsMovedBack(s.stmt[i], t.stmt[i], pi, level)
      ensures t.stmt[i].order == orders[i]
    {
      assert s.stmt[i].Valid(s.numDepDim);
      StatementMoved(s.stmt[i], s.numDepDim, pi, level, orders[i], t.stmt[i]);
    }
    StoredGraphMoved(s.dep, pi, level, DependencePermutation(pi, level, s.numDepDim), active, t.dep);
  }

  // ---------- Exceptions ----------

  /** The arguments permute accepts; the level range is that of a second statement, see LevelRangeCheckedIff. */
  ghost predicate Accepted(s: LoopState, active: set<int>, pi: seq<int>, level: int) {
    && ListsLevels(pi, level)
    && (forall a :: a in active ==> 0 <= a < |s.stmt|)
    && (forall a, b :: a in active && b in active && a != b ==> level + |pi| - 1 <= s.numDepDim)
    && forall a, b :: a in active && b in active && 0 <= a < |s.stmt| && 0 <= b < |s.stmt| ==>
         Outer(s.stmt[a].order, level) == Outer(s.stmt[b].order, level)
  }

  /** |pi| numbers that include |pi| consecutive ones are those. */
  lemma ListedLevelsOnly(pi: seq<int>, level: int, i: nat)
    requires ListsLevels(pi, level) && i < |pi|
    ensures level <= pi[i] < level + |pi|
  {
    if !(level <= pi[i] < level + |pi|) {
      var rest := Shifted(pi, level)[..i] + Shifted(pi, level)[i + 1..];
      forall k | 0 <= k < |pi|
        ensures k in rest
      {
        var m := PositionOf(pi, level + k);
        if m < i {
          assert rest[m] == k;
        } else {
          assert rest[m - 1] == k;
        }
      }
      RangeNeedsLength(rest, |pi|);
    }
  }

  lemma ListedIsPermutation(pi: seq<int>, level: int)
    requires pi != []
    ensures ListsLevels(pi, level) <==> PermutesLevels(pi) && level == LowestLevel(pi)
  {
    if ListsLevels(pi, level) {
      forall i | 0 <= i < |pi|
        ensures level <= pi[i] < level + |pi|
      {
        ListedLevelsOnly(pi, level, i);
      }
      assert level in pi;
      assert level == LowestLevel(pi);
      forall k | 0 <= k < |pi|
        ensures k in Shifted(pi, level)
      {
        assert Shifted(pi, level)[PositionOf(pi, level + k)] == k;
      }
    }
    if PermutesLevels(pi) && level == LowestLevel(pi) {
      forall l | level <= l < level + |pi|
        ensures l in pi
      {
        assert pi[PositionOf(Shifted(pi, level), l - level)] == l;
      }
    }
  }

  lemma SameOuter(a: seq<int>, b: seq<int>, level: int)
    requires level >= 1 && |a| == |b|
    ensures Outer(a, level) == Outer(b, level) <==> forall c :: 0 <= c < level - 1 && c < |a| ==> a[c] == b[c]
  {
    if Outer(a, level) == Outer(b, level) {
      assert forall c :: 0 <= c < |Outer(a, level)| ==> Outer(a, level)[c] == a[c] && Outer(b, level)[c] == b[c];
    }
  }

  lemma SameSubloopIff(s: LoopState, active: set<int>, level: int)
    requires s.Valid() && level >= 1
    ensures SameSubloop(s.stmt, active, level) <==>
            forall a, b :: a in active && b in active && 0 <= a < |s.stmt| && 0 <= b < |s.stmt| ==>
              Outer(s.stmt[a].order, level) == Outer(s.stmt[b].order, level)
  {
    forall a, b | a in active && b in active && 0 <= a < |s.stmt| && 0 <= b < |s.stmt|
      ensures |s.stmt[a].order| == |s.stmt[b].order|
      ensures Outer(s.stmt[a].order, level) == Outer(s.stmt[b].order, level) <==>
              forall c :: 0 <= c < level - 1 && c < |s.stmt[a].order| ==> s.stmt[a].order[c] == s.stmt[b].order[c]
    {
      assert s.stmt[a].Valid(s.numDepDim) && s.stmt[b].Valid(s.numDepDim);
      SameOuter(s.stmt[a].order, s.stmt[b].order, level);
    }
  }

  lemma SeveralActive(active: set<int>)
    ensures |active| > 1 <==> exists a, b :: a in active && b in active && a != b
  {
    if |active| > 1 {
      var a := SomeMember(active);
      var b := Loop.OtherActive(active, a);
    }
    if a, b :| a in active && b in active && a != b {
      Loop.TwoActive(active, a, b);
    }
  }

  /** What the argument checks accept. */
  lemma PermuteArgumentsIff(s: LoopState, active: set<int>, pi: seq<int>)
    requires s.Valid() && pi != []
    ensures PermuteArguments(s, active, pi) <==> exists level :: Accepted(s, active, pi, level)
  {
    var level := LowestLevel(pi);
    ListedIsPermutation(pi, level);
    SeveralActive(active);
    if PermutesLevels(pi) {
      SameSubloopIff(s, active, level);
      assert PermuteArguments(s, active, pi) ==> Accepted(s, active, pi, level);
    }
    if l :| Accepted(s, active, pi, l) {
      ListedIsPermutation(pi, l);
    }
  }

  /** permute throws on a vector between permuted statements. */
  ghost predicate Stops(d: DependenceVector, n: nat, pi: seq<int>, level: int) {
    d.Valid() && (|d.lbounds| != n || (!d.quasi && !d.scalar && TurnsAround(d, pi, level)))
  }

  ghost predicate SomeStops(g: DependenceGraph, active: set<int>, n: nat, pi: seq<int>, level: int) {
    exists i, j, k :: i in active && j in active && 0 <= k < |g.Edge(i, j)| && Stops(g.Edge(i, j)[k], n, pi, level)
  }

  ghost predicate SomeWrongLength(g: DependenceGraph, active: set<int>, n: nat) {
    exists i, j, k :: i in active && j in active && 0 <= k < |g.Edge(i, j)| && |g.Edge(i, j)[k].lbounds| != n
  }

  ghost predicate SomeUnknown(g: DependenceGraph, active: set<int>) {
    exists i, j, k :: (i in active || j in active) && 0 <= k < |g.Edge(i, j)| && g.Edge(i, j)[k].kind == Unknown
  }

  lemma TurnsAroundIff(d: DependenceVector, pi: seq<int>, level: int, p: seq<int>)
    requires d.Valid() && 1 <= level && level + |pi| - 1 <= |d.lbounds|
    requires IsPermutation(Shifted(pi, level), |pi|) && p == DependencePermutation(pi, level, |d.lbounds|)
    ensures InRange(p, |d.lbounds|) && (TurnsAround(d, pi, level) <==> d.Permuted(p).HasLexNegative())
  {
    LevelsInPlace(pi, level, |d.lbounds|);
    if v, w :| d.Contains(v) && MovedBy(v, w, pi, level) && LexNegative(w) {
      MovedIsRearranged(v, w, pi, level, p);
      PermutedHolds(d, p, v);
    }
    if w :| d.Permuted(p).Contains(w) && LexNegative(w) {
      d.PermutedMeaning(p, w);
      var v :| d.Contains(v) && w == Rearranged(v, p);
      MovedIsRearranged(v, w, pi, level, p);
    }
  }

  lemma StopsIff(d: DependenceVector, pi: seq<int>, level: int, p: seq<int>)
    requires d.Valid() && 1 <= level && level + |pi| - 1 <= |p|
    requires IsPermutation(Shifted(pi, level), |pi|) && p == DependencePermutation(pi, level, |p|)
    ensures InRange(p, |p|) && (Stops(d, |p|, pi, level) <==> Rejected(d, p))
  {
    LevelsInPlace(pi, level, |p|);
    if |d.lbounds| == |p| {
      TurnsAroundIff(d, pi, level, p);
    }
  }

  lemma GraphStopsIff(g: DependenceGraph, active: set<int>, pi: seq<int>, level: int, p: seq<int>)
    requires g.Valid() && active != {} && 1 <= level && level + |pi| - 1 <= |p|
    requires IsPermutation(Shifted(pi, level), |pi|) && p == DependencePermutation(pi, level, |p|)
    ensures g.PermuteResult(p, active).Throw? <==> SomeStops(g, active, |p|, pi, level)
    ensures g.PermuteResult(p, active) == Throw(InvalidArgument) ==> SomeWrongLength(g, active, |p|)
  {
    LevelsInPlace(pi, level, |p|);
    GraphPermuteRejects(g, p, active);
    forall i, j
      ensures SomeRejected(g.Edge(i, j), p) <==>
              exists k :: 0 <= k < |g.Edge(i, j)| && Stops(g.Edge(i, j)[k], |p|, pi, level)
    {
      var ds := g.Edge(i, j);
      g.EdgeIsValid(i, j);
      forall k | 0 <= k < |ds|
        ensures Stops(ds[k], |p|, pi, level) <==> Rejected(ds[k], p)
      {
        StopsIff(ds[k], pi, level, p);
      }
    }
  }

  /** The first edge the loops reach that is rejected. */
  lemma FirstRejectedEdge(g: DependenceGraph, p: seq<int>, active: set<int>, i: nat, j: nat) returns (a: int, b: int)
    requires g.Valid() && g.RejectedEdge(p, active, i, j)
    ensures g.RejectedEdge(p, active, a, b) && g.Reached(p, active, a, b)
    decreases i, j
  {
    if g.Reached(p, active, i, j) {
      a, b := i, j;
    } else {
      a, b :| DependenceGraph.Earlier(a, b, i, j) && g.RejectedEdge(p, active, a, b);
      g.NoEdge(a, b);
      a, b := FirstRejectedEdge(g, p, active, a, b);
    }
  }

  ghost predicate SomeTurned(g: DependenceGraph, active: set<int>, n: nat, pi: seq<int>, level: int) {
    exists i, j, k :: i in active && j in active && 0 <= k < |g.Edge(i, j)| && Turned(g.Edge(i, j)[k], n, pi, level)
  }

  /** An ordinary vector that is turned around. */
  ghost predicate Turned(d: DependenceVector, n: nat, pi: seq<int>, level: int) {
    d.Valid() && |d.lbounds| == n && !d.quasi && !d.scalar && TurnsAround(d, pi, level)
  }

  /** ir_error is the fault of an ordinary vector that is turned around. */
  lemma IrErrorTurns(g: DependenceGraph, active: set<int>, pi: seq<int>, level: int, p: seq<int>)
    requires g.Valid() && active != {} && 1 <= level && level + |pi| - 1 <= |p|
    requires IsPermutation(Shifted(pi, level), |pi|) && p == DependencePermutation(pi, level, |p|)
    requires g.PermuteResult(p, active) == Throw(IrError)
    ensures SomeTurned(g, active, |p|, pi, level)
  {
    LevelsInPlace(pi, level, |p|);
    var a, b :| g.RejectedEdge(p, active, a, b);
    g.NoEdge(a, b);
    var i, j := FirstRejectedEdge(g, p, active, a, b);
    var ds := g.Edge(i, j);
    g.EdgeIsValid(i, j);
    ListResultThrows(ds, p);
    var m :| 0 <= m < |ds| && Rejected(ds[m], p);
    var k := SomeFirstRejected(ds, p, m);
    TurnsAroundIff(ds[k], pi, level, p);
    assert Turned(ds[k], |p|, pi, level);
  }

  lemma TouchesUnknownIff(g: DependenceGraph, active: set<int>)
    ensures TouchesUnknown(g, active) <==> SomeUnknown(g, active)
  {
    if TouchesUnknown(g, active) {
      var i, j :| (i in active || j in active) && HasUnknown(g.Edge(i, j));
      var k :| 0 <= k < |g.Edge(i, j)| && g.Edge(i, j)[k].kind == Unknown;
    }
    if i, j, k :| (i in active || j in active) && 0 <= k < |g.Edge(i, j)| && g.Edge(i, j)[k].kind == Unknown {
      assert HasUnknown(g.Edge(i, j));
    }
  }

  /**
   When permute throws, and what: for its arguments; for a distance between permuted
   statements that is turned around by an ordinary vector, or a vector of another
   length; for an unknown vector at a permuted statement; or what setLexicalOrder throws.
   */
  lemma PermuteThrowsIff(s: LoopState, active: set<int>, pi: seq<int>, lexical: Result<seq<seq<int>>>)
    requires s.Valid() && PermuteInBounds(s, active, pi)
    requires lexical.Ok? ==> OrdersFit(s, lexical.value)
    ensures var r, n := PermuteOutcome(s, active, pi, lexical), s.numDepDim;
            if active == {} || pi == [] then
              r == Ok(s)
            else if exists l :: Accepted(s, active, pi, l) then
              var stops, unknown := SomeStops(s.dep, active, n, pi, LowestLevel(pi)), SomeUnknown(s.dep, active);
              && (r.Throw? <==> stops || unknown || lexical.Throw?)
              && (stops ==> (r == Throw(IrError) && SomeTurned(s.dep, active, n, pi, LowestLevel(pi)))
                            || (r == Throw(InvalidArgument) && SomeWrongLength(s.dep, active, n)))
              && (!stops && unknown ==> r == Throw(LoopError))
              && (!stops && !unknown && lexical.Throw? ==> r == Throw(lexical.error))
            else
              r == Throw(InvalidArgument)
  {
    if active != {} && pi != [] {
      PermuteArgumentsIff(s, active, pi);
      if PermuteArguments(s, active, pi) {
        var level := LowestLevel(pi);
        var p := DependencePermutation(pi, level, s.numDepDim);
        GraphStopsIff(s.dep, active, pi, level, p);
        TouchesUnknownIff(s.dep, active);
        if s.dep.PermuteResult(p, active) == Throw(IrError) {
          IrErrorTurns(s.dep, active, pi, level, p);
        }
      }
    }
  }

  /** An exception of the graph comes after the schedules; one of setLexicalOrder after all but its constants. */
  lemma PermuteStopped(s: LoopState, active: set<int>, pi: seq<int>, t: LoopState)
    requires s.Valid() && PermuteInBounds(s, active, pi) && active != {} && pi != []
    requires PermuteLeaves(s, active, pi, t)
    ensures |t.stmt| == |s.stmt| && t.numDepDim == s.numDepDim
    ensures if exists l :: Accepted(s, active, pi, l) then
              var level := LowestLevel(pi);
              var stopped := SomeStops(s.dep, active, s.numDepDim, pi, level) || SomeUnknown(s.dep, active);
              && (if stopped then t.dep == s.dep else GraphMoved(s.dep, t.dep, active, pi, level))
              && forall i :: 0 <= i < |s.stmt| ==>
                   StatementStopped(s.stmt[i], t.stmt[i], i in active, pi, level, stopped)
            else
              t == s
  {
    PermuteArgumentsIff(s, active, pi);
    if PermuteArguments(s, active, pi) {
      var level, n := LowestLevel(pi), s.numDepDim;
      var p := DependencePermutation(pi, level, n);
      GraphStopsIff(s.dep, active, pi, level, p);
      TouchesUnknownIff(s.dep, active);
      StoredGraphMoved(s.dep, pi, level, p, active, s.dep.Mapped(s.dep.numDim, StoredEdges(p, active)));
      var stopped := SomeStops(s.dep, active, n, pi, level) || SomeUnknown(s.dep, active);
      assert stopped <==> StoredGraph(s.dep, p, active).Throw?;
      forall i | 0 <= i < |s.stmt|
        ensures StatementStopped(s.stmt[i], t.stmt[i], i in active, pi, level, stopped)
      {
        assert s.stmt[i].Valid(n);
        var order := s.stmt[i].order;
        StatementMoved(s.stmt[i], n, pi, level, order, PermutedStatement(s.stmt[i], pi, level, order));
      }
    }
  }

  /** One statement after an exception: the tags are moved only when the graph is stored. */
  ghost predicate StatementStopped(s: Statement, t: Statement, active: bool, pi: seq<int>, level: int, stopped: bool) {
    && (stopped ==> t.order == s.order)
    && (!active ==> t.xform == s.xform && t.loopLevel == s.loopLevel)
    && (active ==> RowsMoved(s, t, pi, level))
    && (active ==> if stopped then t.loopLevel == s.loopLevel else TagsMovedBack(s, t, pi, level))
  }
}
