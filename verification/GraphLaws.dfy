/**
 What the graph operations of chill/dep.cc do to one edge, said about its vectors
 alone: the pieces normalize cuts, the list permute gives an edge, and the vectors
 subspace keeps.
 */
module GraphLaws {
  import opened Outcomes
  import opened Bounds
  import opened Lexicographic
  import opened Lists
  import opened Permutations
  import opened DependenceVectors
  import opened DependenceGraphs

  // ---------- normalize ----------

  /** e is d with zeros before k, one side of zero at k, and everything after k as it was. */
  ghost predicate PartAt(d: DependenceVector, e: DependenceVector, k: nat) {
    && |e.lbounds| == |e.ubounds| == |d.lbounds| == |d.ubounds| && k <= |d.lbounds|
    && (forall l :: 0 <= l < k ==> e.lbounds[l] == e.ubounds[l] == ZERO)
    && (forall l :: k < l < |d.lbounds| ==> e.lbounds[l] == d.lbounds[l] && e.ubounds[l] == d.ubounds[l])
    && (k < |d.lbounds| ==>
          || (e.ubounds[k].BelowZero() && forall x :: Within(e.lbounds[k], e.ubounds[k], x) <==>
                Within(d.lbounds[k], d.ubounds[k], x) && x < 0)
          || (e.lbounds[k].AboveZero() && forall x :: Within(e.lbounds[k], e.ubounds[k], x) <==>
                Within(d.lbounds[k], d.ubounds[k], x) && x > 0))
  }

  ghost predicate IsPart(d: DependenceVector, e: DependenceVector, i: nat) {
    d.SameLabel(e) && exists k: nat :: i <= k && PartAt(d, e, k)
  }

  /** rest is d except at i. */
  ghost predicate RestOf(d: DependenceVector, rest: DependenceVector, i: nat) {
    && rest.Valid() && d.SameLabel(rest) && |rest.lbounds| == |d.lbounds| == |d.ubounds|
    && forall l :: 0 <= l < |d.lbounds| && l != i ==> rest.lbounds[l] == d.lbounds[l] && rest.ubounds[l] == d.ubounds[l]
  }

  lemma NegativePart(d: DependenceVector, i: nat)
    requires d.Valid() && i < |d.lbounds| && forall l :: 0 <= l < i ==> d.lbounds[l] == d.ubounds[l] == ZERO
    ensures forall e :: e in d.CutNegative(i).0 ==> d.SameLabel(e) && PartAt(d, e, i)
    ensures var rest := d.CutNegative(i).1;
            && RestOf(d, rest, i) && rest.ubounds[i] == d.ubounds[i]
            && (rest.lbounds[i] == d.lbounds[i] ||
                (rest.lbounds[i] == ZERO && d.lbounds[i].BelowZero() && !d.ubounds[i].BelowZero()))
            && (rest.lbounds[i].BelowZero() ==> rest.ubounds[i].BelowZero() && rest.lbounds[i] == d.lbounds[i])
  {
  }

  lemma PositivePart(d: DependenceVector, i: nat)
    requires d.Valid() && i < |d.lbounds| && forall l :: 0 <= l < i ==> d.lbounds[l] == d.ubounds[l] == ZERO
    ensures forall e :: e in d.CutPositive(i).0 ==>
              d.SameLabel(e) && e.Valid() && PartAt(d, e, i) && e.lbounds[i].AboveZero()
    ensures var rest := d.CutPositive(i).1;
            && RestOf(d, rest, i) && (d.lbounds[i] == ZERO ==> rest.lbounds[i] == rest.ubounds[i] == ZERO)
            && (d.lbounds[i] != ZERO ==> rest == d)
  {
  }

  /** The non-negative rest has the same positive part. */
  lemma PartOfNonNegative(d: DependenceVector, rest: DependenceVector, e: DependenceVector, i: nat)
    requires d.Valid() && RestOf(d, rest, i) && i < |d.lbounds| && rest.ubounds[i] == d.ubounds[i]
    requires rest.lbounds[i] == d.lbounds[i] || (rest.lbounds[i] == ZERO && d.lbounds[i].BelowZero())
    requires rest.SameLabel(e) && e.Valid() && PartAt(rest, e, i) && e.lbounds[i].AboveZero()
    ensures d.SameLabel(e) && PartAt(d, e, i)
  {
    assert forall x :: x > 0 ==> (Within(rest.lbounds[i], rest.ubounds[i], x) <==>
                                   Within(d.lbounds[i], d.ubounds[i], x));
  }

  lemma CutParts(d: DependenceVector, i: nat)
    requires d.Valid() && i < |d.lbounds| && forall l :: 0 <= l < i ==> d.lbounds[l] == d.ubounds[l] == ZERO
    ensures forall e :: e in d.Cut(i).0 ==> IsPart(d, e, i)
    ensures RestOf(d, d.Cut(i).1, i)
    ensures !(d.Cut(i).1.lbounds[i] == d.Cut(i).1.ubounds[i] == ZERO) ==> IsPart(d, d.Cut(i).1, i)
  {
    var (negative, rest) := d.CutNegative(i);
    NegativePart(d, i);
    var (positive, last) := rest.CutPositive(i);
    PositivePart(rest, i);
    forall e | e in positive
      ensures IsPart(d, e, i)
    {
      PartOfNonNegative(d, rest, e, i);
    }
    if !(last.lbounds[i] == last.ubounds[i] == ZERO) {
      assert PartAt(d, last, i);
    }
  }

  lemma PartOfRest(d: DependenceVector, rest: DependenceVector, e: DependenceVector, i: nat)
    requires d.Valid() && RestOf(d, rest, i) && i < |d.lbounds| && IsPart(rest, e, i + 1)
    ensures IsPart(d, e, i)
  {
    var k: nat :| i + 1 <= k && PartAt(rest, e, k);
    assert PartAt(d, e, k);
  }

  /** Every piece from dimension i on is a part of the vector. */
  lemma {:induction false} PiecesAreParts(d: DependenceVector, i: nat)
    requires d.Valid() && i <= |d.lbounds| && forall l :: 0 <= l < i ==> d.lbounds[l] == d.ubounds[l] == ZERO
    ensures forall e :: e in d.PiecesFrom(i) ==> IsPart(d, e, i)
    decreases |d.lbounds| - i
  {
    if i == |d.lbounds| {
      assert PartAt(d, d, i);
    } else {
      CutParts(d, i);
      var rest := d.Cut(i).1;
      assert d.PiecesFrom(i) == d.Cut(i).0 + d.RestFrom(i);
      if rest.lbounds[i] == ZERO && rest.ubounds[i] == ZERO {
        PiecesAreParts(rest, i + 1);
        forall e | e in rest.PiecesFrom(i + 1)
          ensures IsPart(d, e, i)
        {
          PartOfRest(d, rest, e, i);
        }
      }
    }
  }

  /**
   normalize: disjoint pieces that cover the box, each with zeros, one side of zero and
   then the old intervals.
   */
  lemma NormalizeLaw(d: DependenceVector)
    requires d.Valid()
    ensures d.IsSplit(d.PiecesFrom(0)) && forall e :: e in d.PiecesFrom(0) ==> IsPart(d, e, 0)
  {
    d.PiecesFromSplit(0);
    PiecesAreParts(d, 0);
  }

  // ---------- permute ----------

  /** The permuted vector is cut into parts, its label on each. */
  ghost predicate CutInto(d: DependenceVector, pi: seq<int>, es: seq<DependenceVector>) {
    && d.Valid() && InRange(pi, |d.lbounds|)
    && d.Permuted(pi).IsSplit(es) && forall e :: e in es ==> IsPart(d.Permuted(pi), e, 0)
  }

  /**
   Between permuted statements the edge lists the parts of its vectors, one vector after
   the other; the label of a vector is on all of its parts.
   */
  lemma PermutedEdgeInside(g: DependenceGraph, pi: seq<int>, active: set<int>, i: int, j: int)
    returns (parts: DependenceVector -> seq<DependenceVector>)
    requires g.Valid() && InRange(pi, |pi|) && g.PermuteResult(pi, active).Ok?
    requires DependenceGraph.InsideActive(active, i, j)
    ensures var h := g.PermuteResult(pi, active).value;
            h.numDim == 0 && |h.vertex| == |g.vertex| && h.Edge(i, j) == Flatten(g.Edge(i, j), parts)
    ensures forall k :: 0 <= k < |g.Edge(i, j)| ==> CutInto(g.Edge(i, j)[k], pi, parts(g.Edge(i, j)[k]))
  {
    var ds, f := g.Edge(i, j), PiecesOf(pi);
    parts := (d: DependenceVector) => f(d).GetOr([]);
    g.EdgeIsValid(i, j);
    g.MappedEdge(0, DependenceGraph.PermutedEdges(pi, active), i, j);
    assert !g.RejectedEdge(pi, active, i, j);
    FlatMapIsFlatten(ds, f, parts, |ds|);
    WholePrefix(ds);
    FlatMapThrows(ds, f, |ds|);
    forall k | 0 <= k < |ds|
      ensures CutInto(ds[k], pi, parts(ds[k]))
    {
      VectorResultMeaning(ds[k], pi);
      assert f(ds[k]).Ok?;
      NormalizeLaw(ds[k].Permuted(pi));
    }
  }

  /** Other edges keep their vectors in place with their labels; those with one permuted end forget what moves. */
  lemma PermutedEdgeOutside(g: DependenceGraph, pi: seq<int>, active: set<int>, i: int, j: int)
    requires g.Valid() && g.PermuteResult(pi, active).Ok? && !DependenceGraph.InsideActive(active, i, j)
    ensures var ds, es := g.Edge(i, j), g.PermuteResult(pi, active).value.Edge(i, j);
            if DependenceGraph.AcrossActive(active, i, j) then
              AllValid(ds) && |es| == |ds| && forall k :: 0 <= k < |ds| ==>
                ds[k].SameLabel(es[k]) && es[k].Valid() && forall w :: es[k].Contains(w) <==> StaysWithin(ds[k], pi, w)
            else
              es == ds
  {
    var ds := g.Edge(i, j);
    g.EdgeIsValid(i, j);
    g.MappedEdge(0, DependenceGraph.PermutedEdges(pi, active), i, j);
    if DependenceGraph.AcrossActive(active, i, j) {
      var es := g.PermuteResult(pi, active).value.Edge(i, j);
      assert es == if 0 <= i < |g.vertex| && j in g.vertex[i] then JumbledList(ds, pi) else [];
      forall k, w | 0 <= k < |ds|
        ensures Jumbled(ds[k], pi).Valid() && (Jumbled(ds[k], pi).Contains(w) <==> StaysWithin(ds[k], pi, w))
      {
        JumbledMeaning(ds[k], pi, w);
      }
    }
  }

  // ---------- subspace ----------

  /** A control dependence, or one with a distance that is zero in the first dim loops, in all of them past the end. */
  ghost predicate Survives(d: DependenceVector, dim: int) {
    || d.kind == Control
    || (d.Valid() && exists v :: d.Contains(v) && ZeroUpTo(v, if 0 <= dim <= |v| then dim else |v|))
  }

  /** Every edge of the subspace lists the surviving vectors of the old edge, in order. */
  lemma SubspaceEdge(g: DependenceGraph, dim: int, i: int, j: int)
    requires g.Valid()
    ensures var h := g.Mapped(0, DependenceGraph.CarriedEdges(dim));
            && h.numDim == 0 && |h.vertex| == |g.vertex|
            && h.Edge(i, j) == Filter(g.Edge(i, j), (d: DependenceVector) => Survives(d, dim), |g.Edge(i, j)|)
  {
    var ds := g.Edge(i, j);
    g.EdgeIsValid(i, j);
    g.MappedEdge(0, DependenceGraph.CarriedEdges(dim), i, j);
    forall m | 0 <= m < |ds|
      ensures Keeps(ds[m], dim) == Survives(ds[m], dim)
    {
      ds[m].CarriedMember(dim, PosInf);
    }
    FilterSame(ds, (d: DependenceVector) => Keeps(d, dim), (d: DependenceVector) => Survives(d, dim), |ds|);
  }
}
