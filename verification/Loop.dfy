/**
 The loop transformations of chill/loop_basic.cc, updating schedule, dependence
 graph and loop-level table in place. Each method is proved against the outcome
 the LoopStates module gives it, exceptions included.
 */
module Loops {
  import opened Outcomes
  import opened Bounds
  import opened Permutations
  import opened Lists
  import opened DependenceVectors
  import opened DependenceGraphs
  import opened Affine
  import opened LoopStates

  class Loop {
    var stmt: seq<Statement>
    var dep: DependenceGraph
    var numDepDim: nat

    constructor (stmt: seq<Statement>, dep: DependenceGraph, numDepDim: nat)
      requires LoopState(stmt, dep, numDepDim).Valid()
      ensures Valid() && State() == LoopState(stmt, dep, numDepDim)
    {
      this.stmt, this.dep, this.numDepDim := stmt, dep, numDepDim;
    }

    ghost function State(): LoopState
      reads this
    {
      LoopState(stmt, dep, numDepDim)
    }

    ghost predicate Valid()
      reads this
    {
      State().Valid()
    }

    // ---------- permute ----------

    /** The sanity checks on pi (chill/loop_basic.cc:256-271): its lowest level and the reverse permutation. */
    static method CheckPermutation(pi: seq<int>) returns (r: Result<(int, seq<int>)>)
      requires pi != []
      ensures r.Ok? <==> PermutesLevels(pi)
      ensures r.Throw? ==> r.error == InvalidArgument
      ensures r.Ok? ==>
                var (level, reversePi) := r.value;
                level == LowestLevel(pi) && IsReverse(pi, level, reversePi)
    {
      var level := FindLowestLevel(pi);
      if level < 1 {
        return Throw(InvalidArgument);
      }
      var reversePi := ReverseLevels(pi, level);
      if reversePi.Throw? {
        return Throw(reversePi.error);
      }
      return Ok((level, reversePi.value));
    }

    static method ReverseLevels(pi: seq<int>, level: int) returns (r: Result<seq<int>>)
      requires level >= 1 && forall i :: 0 <= i < |pi| ==> level <= pi[i]
      ensures r.Ok? <==> IsPermutation(Shifted(pi, level), |pi|)
      ensures r.Throw? ==> r.error == InvalidArgument
      ensures r.Ok? ==> IsReverse(pi, level, r.value)
    {
      ghost var s := Shifted(pi, level);
      var reversePi := seq(|pi|, _ => 0);
      for i := 0 to |pi|
        invariant |reversePi| == |pi|
        invariant forall m :: 0 <= m < i ==> s[m] < |pi|
        invariant forall k :: 0 <= k < |pi| && reversePi[k] == 0 ==> k !in s[..i]
        invariant forall k :: 0 <= k < |pi| && reversePi[k] != 0 ==>
                                level <= reversePi[k] < level + i && s[reversePi[k] - level] == k
      {
        assert s[i] == pi[i] - level;
        if pi[i] >= level + |pi| {
          return Throw(InvalidArgument);
        }
        assert s[..i + 1] == s[..i] + [s[i]];
        reversePi := reversePi[pi[i] - level := i + level];
      }
      assert s[..|pi|] == s;
      for i := 0 to |reversePi|
        invariant forall k :: 0 <= k < i ==> reversePi[k] != 0
      {
        if reversePi[i] == 0 {
          return Throw(InvalidArgument);
        }
      }
      forall k | 0 <= k < |pi|
        ensures k in s
      {
        assert s[reversePi[k] - level] == k;
      }
      return Ok(reversePi);
    }

    static method FindLowestLevel(pi: seq<int>) returns (level: int)
      requires pi != []
      ensures level == LowestLevel(pi)
    {
      level := pi[0];
      for i := 1 to |pi|
        invariant level in pi[..i] && forall m :: 0 <= m < i ==> level <= pi[m]
      {
        if pi[i] < level {
          level := pi[i];
        }
      }
      assert level in pi;
    }

    /** The checks on the active statements (chill/loop_basic.cc:272-296). */
    method CheckActive(active: set<int>, level: int, m: nat) returns (r: Result<()>)
      requires Valid() && level >= 1 && active != {}
      ensures r.Ok? <==> State().InStatements(active) && (|active| > 1 ==> level + m - 1 <= numDepDim)
                         && SameSubloop(stmt, active, level)
      ensures r.Throw? ==> r.error == InvalidArgument
    {
      if exists a :: a in active && !(0 <= a < |stmt|) {
        return Throw(InvalidArgument);
      }
      var ref := FirstActive(active);
      for i := 0 to |stmt|
        invariant forall a :: a in active && a < i && a != ref ==>
                  level + m - 1 <= numDepDim && SameOrder(stmt[ref], stmt[a], level)
      {
        if i in active && i != ref {
          if level + m - 1 > numDepDim {
            TwoActive(active, ref, i);
            return Throw(InvalidArgument);
          }
          for j := 0 to level - 1
            invariant forall c :: 0 <= c < j ==> stmt[ref].order[c] == stmt[i].order[c]
          {
            if stmt[ref].order[j] != stmt[i].order[j] {
              return Throw(InvalidArgument);
            }
          }
        }
      }
      assert |active| > 1 ==> level + m - 1 <= numDepDim by {
        if |active| > 1 {
          var other := OtherActive(active, ref);
        }
      }
      return Ok(());
    }

    ghost static predicate SameOrder(s: Statement, t: Statement, level: int) {
      forall c :: 0 <= c < level - 1 && c < |s.order| && c < |t.order| ==> s.order[c] == t.order[c]
    }

    static lemma TwoActive(active: set<int>, a: int, b: int)
      requires a in active && b in active && a != b
      ensures |active| > 1
    {
      assert {a, b} <= active;
      assert |active - {a}| == |active| - 1;
      assert b in active - {a};
    }

    static lemma OtherActive(active: set<int>, a: int) returns (b: int)
      requires a in active && |active| > 1
      ensures b in active && b != a
    {
      var rest := active - {a};
      assert active == rest + {a};
      assert rest != {};
      b := SomeMember(rest);
    }

    /** The first statement of a set. */
    method FirstActive(active: set<int>) returns (ref: nat)
      requires active != {} && forall a :: a in active ==> 0 <= a < |stmt|
      ensures ref in active && ref < |stmt| && forall a :: a in active ==> ref <= a
    {
      ghost var some := SomeMember(active);
      ref := 0;
      while ref !in active
        invariant ref <= some && forall a :: a in active ==> ref <= a
        decreases some - ref
      {
        ref := ref + 1;
      }
    }

    /** Composes each active xform with the permutation of levels (chill/loop_basic.cc:300-328). */
    method PermuteXforms(active: set<int>, pi: seq<int>, level: int)
      requires Valid() && 1 <= level && level + |pi| - 1 <= numDepDim
      requires IsPermutation(Shifted(pi, level), |pi|)
      modifies this`stmt
      ensures |stmt| == |old(stmt)|
      ensures forall i :: 0 <= i < |stmt| ==>
                            stmt[i] == if i in active then WithPermutedXform(old(stmt[i]), pi, level) else old(stmt[i])
      ensures forall i :: 0 <= i < |stmt| ==> PlainLevels(stmt[i].loopLevel, numDepDim)
    {
      for i := 0 to |stmt|
        invariant |stmt| == |old(stmt)|
        invariant forall m :: 0 <= m < i ==>
                                stmt[m] == if m in active then WithPermutedXform(old(stmt[m]), pi, level)
                                  else old(stmt[m])
        invariant forall m :: i <= m < |stmt| ==> stmt[m] == old(stmt[m])
        invariant forall m :: 0 <= m < |stmt| ==> PlainLevels(stmt[m].loopLevel, numDepDim)
      {
        if i in active {
          assert old(stmt[i]).Valid(numDepDim);
          var xform := PermuteRows(stmt[i].xform, pi, level);
          stmt := stmt[i := stmt[i].(xform := xform)];
        }
      }
    }

    static method PermuteRows(xform: seq<Row>, pi: seq<int>, level: int) returns (rows: seq<Row>)
      requires 1 <= level && level + |pi| - 1 <= |xform| && IsPermutation(Shifted(pi, level), |pi|)
      ensures InRange(DependencePermutation(pi, level, |xform|), |xform|)
      ensures rows == Rearranged(xform, DependencePermutation(pi, level, |xform|))
    {
      DependencePermutationIsPermutation(pi, level, |xform|);
      rows := xform;
      for j := 0 to |pi|
        invariant |rows| == |xform|
        invariant forall l :: 0 <= l < |xform| ==>
                    rows[l] ==
                    if level - 1 <= l < level - 1 + j then xform[DependencePermutation(pi, level, |xform|)[l]]
                    else xform[l]
      {
        assert DependencePermutation(pi, level, |xform|)[level - 1 + j] == pi[j] - 1;
        rows := rows[level - 1 + j := xform[pi[j] - 1]];
      }
    }

    /** The stored graph (chill/loop_basic.cc:357-418): permuted or jumbled lists, never normalized. */
    static method StoreGraph(dep: DependenceGraph, p: seq<int>, active: set<int>) returns (r: Result<DependenceGraph>)
      requires dep.Valid() && dep.Fits(|p|) && InRange(p, |p|)
      ensures r == if TouchesUnknown(dep, active) then Throw(LoopError)
              else Ok(dep.Mapped(dep.numDim, StoredEdges(p, active)))
    {
      ghost var f := StoredEdges(p, active);
      var g := dep.Emptied(dep.numDim);
      dep.BuiltStart(dep.numDim, f);
      for i := 0 to |dep.vertex|
        invariant g == dep.Built(dep.numDim, f, i, 0)
        invariant KnownBefore(dep, active, i, 0)
      {
        for j := 0 to |dep.vertex|
          invariant g == dep.Built(dep.numDim, f, i, j)
          invariant KnownBefore(dep, active, i, j)
        {
          dep.BuiltNextEdge(dep.numDim, f, i, j);
          if j in dep.vertex[i] {
            dep.EdgeFits(i, j, |p|);
            var dv := StoreEdge(dep.vertex[i][j], p, active, i, j);
            if dv.Throw? {
              assert HasUnknown(dep.Edge(i, j));
              return Throw(dv.error);
            }
            g := g.Connect(i, j, dv.value);
          }
        }
        dep.BuiltNextRow(dep.numDim, f, i);
        RowKnown(dep, active, i);
      }
      AllKnown(dep, active);
      return Ok(g);
    }

    /** No vector of unknown type on the edges at the active statements visited before (i, j). */
    ghost static predicate KnownBefore(g: DependenceGraph, active: set<int>, i: int, j: int) {
      forall a, b {:trigger g.Edge(a, b)} ::
        DependenceGraph.Earlier(a, b, i, j) && (a in active || b in active) ==> !HasUnknown(g.Edge(a, b))
    }

    static lemma RowKnown(g: DependenceGraph, active: set<int>, i: int)
      requires g.Valid() && KnownBefore(g, active, i, |g.vertex|)
      ensures KnownBefore(g, active, i + 1, 0)
    {
      forall a, b {:trigger g.Edge(a, b)} | DependenceGraph.Earlier(a, b, i + 1, 0) && (a in active || b in active)
        ensures !HasUnknown(g.Edge(a, b))
      {
        g.NoEdge(a, b);
      }
    }

    static lemma AllKnown(g: DependenceGraph, active: set<int>)
      requires g.Valid() && KnownBefore(g, active, |g.vertex|, 0)
      ensures !TouchesUnknown(g, active)
    {
      forall a, b {:trigger g.Edge(a, b)} | a in active || b in active
        ensures !HasUnknown(g.Edge(a, b))
      {
        g.NoEdge(a, b);
      }
    }

    /** One edge of the stored graph. */
    static method StoreEdge(ds: seq<DependenceVector>, p: seq<int>, active: set<int>, i: int, j: int)
      returns (r: Result<seq<DependenceVector>>)
      requires AllFit(ds, |p|) && InRange(p, |p|)
      ensures r == if (i in active || j in active) && HasUnknown(ds) then Throw(LoopError)
              else Ok(StoredEdges(p, active)(i, j, ds))
    {
      if i in active && j in active {
        r := StoreList(ds, p);
      } else if i !in active && j !in active {
        r := Ok(ds);
      } else {
        r := JumbleDataList(ds, p);
      }
    }

    static method StoreList(ds: seq<DependenceVector>, p: seq<int>) returns (r: Result<seq<DependenceVector>>)
      requires AllFit(ds, |p|) && InRange(p, |p|)
      ensures r == if HasUnknown(ds) then Throw(LoopError) else Ok(StoredList(ds, p))
    {
      var dv := ds;
      for k := 0 to |ds|
        invariant |dv| == |ds|
        invariant forall m :: 0 <= m < k ==> dv[m] == StoredVector(ds[m], p) && ds[m].kind != Unknown
        invariant forall m :: k <= m < |ds| ==> dv[m] == ds[m]
      {
        match dv[k].kind {
          case W2R | R2W | W2W | R2R =>
            var d := PermuteBounds(dv[k], p);
            dv := dv[k := d];
          case Control =>
          case Unknown =>
            assert ds[k].kind == Unknown;
            return Throw(LoopError);
        }
      }
      assert dv == StoredList(ds, p);
      return Ok(dv);
    }

    static method PermuteBounds(dv: DependenceVector, p: seq<int>) returns (d: DependenceVector)
      requires InRange(p, |p|) && |dv.lbounds| == |dv.ubounds| == |p|
      ensures d == dv.Permuted(p)
    {
      var lbounds, ubounds := seq(|p|, _ => ZERO), seq(|p|, _ => ZERO);
      for dim := 0 to |p|
        invariant |lbounds| == |ubounds| == |p|
        invariant forall m :: 0 <= m < dim ==> lbounds[m] == dv.lbounds[p[m]] && ubounds[m] == dv.ubounds[p[m]]
      {
        lbounds := lbounds[dim := dv.lbounds[p[dim]]];
        ubounds := ubounds[dim := dv.ubounds[p[dim]]];
      }
      d := dv.(lbounds := lbounds, ubounds := ubounds);
      assert lbounds == Rearranged(dv.lbounds, p) && ubounds == Rearranged(dv.ubounds, p);
    }

    static method JumbleDataList(ds: seq<DependenceVector>, p: seq<int>) returns (r: Result<seq<DependenceVector>>)
      requires AllFit(ds, |p|) && InRange(p, |p|)
      ensures r == if HasUnknown(ds) then Throw(LoopError) else Ok(JumbledDataList(ds, p))
    {
      var dv := ds;
      for k := 0 to |ds|
        invariant |dv| == |ds|
        invariant forall m :: 0 <= m < k ==> dv[m] == JumbledVector(ds[m], p) && ds[m].kind != Unknown
        invariant forall m :: k <= m < |ds| ==> dv[m] == ds[m]
      {
        match dv[k].kind {
          case W2R | R2W | W2W | R2R =>
            var d := JumbleVector(dv[k], p);
            dv := dv[k := d];
          case Control =>
          case Unknown =>
            assert ds[k].kind == Unknown;
            return Throw(LoopError);
        }
      }
      assert dv == JumbledDataList(ds, p);
      return Ok(dv);
    }

    /** Rebuilds the loop-level tables (chill/loop_basic.cc:421-479). */
    method PermuteLevels(active: set<int>, pi: seq<int>, level: int, reversePi: seq<int>)
      requires 1 <= level && level + |pi| - 1 <= numDepDim
      requires forall i :: 0 <= i < |stmt| ==>
               |stmt[i].loopLevel| == numDepDim && PlainLevels(stmt[i].loopLevel, numDepDim)
      requires IsPermutation(Shifted(pi, level), |pi|) && IsReverse(pi, level, reversePi)
      modifies this`stmt
      ensures |stmt| == |old(stmt)|
      ensures forall i :: 0 <= i < |stmt| ==>
                            stmt[i] == if i in active then
                              old(stmt[i]).(loopLevel := PermutedLevels(old(stmt[i]).loopLevel, pi, level))
                            else old(stmt[i])
    {
      for i := 0 to |stmt|
        invariant |stmt| == |old(stmt)|
        invariant forall m :: 0 <= m < i ==>
                                stmt[m] == if m in active then
                                  old(stmt[m]).(loopLevel := PermutedLevels(old(stmt[m]).loopLevel, pi, level))
                                else old(stmt[m])
        invariant forall m :: i <= m < |stmt| ==> stmt[m] == old(stmt[m])
      {
        if i in active {
          var levels := PermuteLevelTable(stmt[i].loopLevel, pi, level, reversePi);
          stmt := stmt[i := stmt[i].(loopLevel := levels)];
        }
      }
    }

    /** The constants setLexicalOrder writes. */
    method SetOrders(active: set<int>, orders: seq<seq<int>>)
      requires |orders| == |stmt|
      modifies this`stmt
      ensures |stmt| == |old(stmt)|
      ensures forall i :: 0 <= i < |stmt| ==>
              stmt[i] == if i in active then old(stmt[i]).(order := orders[i]) else old(stmt[i])
    {
      for i := 0 to |stmt|
        invariant |stmt| == |old(stmt)|
        invariant forall m :: 0 <= m < i ==>
                  stmt[m] == if m in active then old(stmt[m]).(order := orders[m]) else old(stmt[m])
        invariant forall m :: i <= m < |stmt| ==> stmt[m] == old(stmt[m])
      {
        if i in active {
          stmt := stmt[i := stmt[i].(order := orders[i])];
        }
      }
    }

    static method PermuteLevelTable(levels: seq<LoopLevel>, pi: seq<int>, level: int, reversePi: seq<int>)
      returns (r: seq<LoopLevel>)
      requires 1 <= level && level + |pi| - 1 <= |levels|
      requires PlainLevels(levels, |levels|)
      requires IsPermutation(Shifted(pi, level), |pi|) && IsReverse(pi, level, reversePi)
      ensures r == PermutedLevels(levels, pi, level)
    {
      var depDim := level - 1;
      r := seq(|levels|, _ => LoopLevel(0, 0));
      for j := 1 to |levels| + 1
        invariant |r| == |levels|
        invariant depDim == level - 1 + (if j < level then 0 else if j < level + |pi| then j - level else |pi|)
        invariant forall l :: 0 <= l < j - 1 ==> r[l] == PermutedLevels(levels, pi, level)[l]
      {
        if level <= j < level + |pi| {
          ReverseIsTagSource(pi, level, reversePi, j - 1);
          assert PermutedLevels(levels, pi, level)[j - 1] ==
                 LoopLevel(j - 1, levels[reversePi[j - level] - 1].parallelLevel);
          r := r[j - 1 := LoopLevel(depDim, levels[reversePi[j - level] - 1].parallelLevel)];
          depDim := depDim + 1;
        } else {
          r := r[j - 1 := LoopLevel(levels[j - 1].payload, levels[j - 1].parallelLevel)];
        }
      }
    }

    static lemma ReverseIsTagSource(pi: seq<int>, level: int, reversePi: seq<int>, l: nat)
      requires 1 <= level && IsPermutation(Shifted(pi, level), |pi|) && IsReverse(pi, level, reversePi)
      requires level - 1 <= l < level - 1 + |pi|
      ensures reversePi[l - (level - 1)] - 1 == TagSource(pi, level, l)
    {
      var s := Shifted(pi, level);
      var a, b := reversePi[l - (level - 1)] - level, TagSource(pi, level, l) - (level - 1);
      assert s[a] == s[b] == l - (level - 1);
      if a < b {
        PermutationIsInjective(s, |pi|, a, b);
      } else if b < a {
        PermutationIsInjective(s, |pi|, b, a);
      }
    }

    /** Loop::permute(active, pi). lexical stands for what setLexicalOrder does at the end. */
    method Permute(active: set<int>, pi: seq<int>, lexical: Result<seq<seq<int>>>) returns (r: Result<()>)
      requires Valid() && PermuteInBounds(State(), active, pi)
      requires lexical.Ok? ==> OrdersFit(State(), lexical.value)
      modifies this
      ensures |stmt| == |old(stmt)| && numDepDim == old(numDepDim)
      ensures r.Ok? ==> PermuteOutcome(old(State()), active, pi, lexical) == Ok(State())
      ensures r.Throw? ==> active != {} && PermuteOutcome(old(State()), active, pi, lexical) == Throw(r.error)
      ensures r.Throw? ==> PermuteLeaves(old(State()), active, pi, State())
    {
      if active == {} || pi == [] {
        return Ok(());
      }
      var checked :- CheckPermutation(pi);
      var (level, reversePi) := checked;
      var _ :- CheckActive(active, level, |pi|);
      ghost var start := State();
      assert forall i :: 0 <= i < |stmt| ==> stmt[i].Valid(numDepDim);
      var p := DependencePi(pi, level, numDepDim);
      var before := dep;
      PermuteXforms(active, pi, level);
      var g :- PermuteGraph(before, p, active);
      dep := g;
      PermuteLevels(active, pi, level, reversePi);
      if lexical.Throw? {
        return Throw(lexical.error);
      }
      SetOrders(active, lexical.value);
      ghost var goal := PermutedState(start, active, pi, lexical.value);
      assert stmt == goal.stmt;
      assert State() == goal;
      return Ok(());
    }

    /** DependenceGraph::permute is called for its exceptions only; the stored graph is built separately. */
    static method PermuteGraph(dep: DependenceGraph, p: seq<int>, active: set<int>) returns (r: Result<DependenceGraph>)
      requires dep.Valid() && dep.Fits(|p|) && InRange(p, |p|) && dep.JumblesInBounds(p, active)
      ensures r == LoopStates.StoredGraph(dep, p, active)
    {
      var _ :- dep.Permute(p, active);
      r := StoreGraph(dep, p, active);
    }

    static method DependencePi(pi: seq<int>, level: int, n: nat) returns (depPi: seq<int>)
      requires 1 <= level && level + |pi| - 1 <= n && IsPermutation(Shifted(pi, level), |pi|)
      ensures depPi == DependencePermutation(pi, level, n) && InRange(depPi, n)
    {
      DependencePermutationIsPermutation(pi, level, n);
      depPi := seq(n, _ => 0);
      for i := 0 to level - 1
        invariant |depPi| == n && forall d :: 0 <= d < i ==> depPi[d] == d
      {
        depPi := depPi[i := i];
      }
      for i := level - 1 to level - 1 + |pi|
        invariant |depPi| == n && forall d :: 0 <= d < i ==> depPi[d] == DependencePermutation(pi, level, n)[d]
      {
        depPi := depPi[i := pi[i - (level - 1)] - 1];
      }
      for i := level - 1 + |pi| to n
        invariant |depPi| == n && forall d :: 0 <= d < i ==> depPi[d] == DependencePermutation(pi, level, n)[d]
      {
        depPi := depPi[i := i];
      }
    }

    // ---------- skew, scale, reverse ----------

    /** The checks on statements, level and amounts (chill/loop_basic.cc:914-927). */
    method CheckSkew(active: set<int>, level: int, amounts: seq<int>) returns (r: Result<()>)
      requires Valid() && active != {}
      ensures r.Ok? <==> SkewArguments(State(), active, level, amounts)
      ensures r.Throw? ==> r.error == InvalidArgument
    {
      if exists a :: a in active && !(0 <= a < |stmt|) {
        return Throw(InvalidArgument);
      }
      if level < 1 || level > numDepDim {
        return Throw(InvalidArgument);
      }
      var j := numDepDim;
      while j < |amounts|
        invariant numDepDim <= j && forall m :: numDepDim <= m < j && m < |amounts| ==> amounts[m] == 0
      {
        if amounts[j] != 0 {
          return Throw(InvalidArgument);
        }
        j := j + 1;
      }
      return Ok(());
    }

    /** Composes each active xform with the skew of one level (chill/loop_basic.cc:931-951). */
    method SkewXforms(active: set<int>, level: int, amounts: seq<int>)
      requires Valid() && SkewArguments(State(), active, level, amounts)
      modifies this`stmt
      ensures |stmt| == |old(stmt)|
      ensures forall i :: 0 <= i < |stmt| ==>
                            stmt[i] == if i in active then SkewedStatement(old(stmt[i]), level, amounts, numDepDim)
                              else old(stmt[i])
    {
      for i := 0 to |stmt|
        invariant |stmt| == |old(stmt)|
        invariant forall m :: 0 <= m < i ==>
                                stmt[m] == if m in active then SkewedStatement(old(stmt[m]), level, amounts, numDepDim)
                                  else old(stmt[m])
        invariant forall m :: i <= m < |stmt| ==> stmt[m] == old(stmt[m])
      {
        if i in active {
          assert stmt[i].Valid(numDepDim);
          var row := CombineRows(amounts, stmt[i].xform, numDepDim);
          stmt := stmt[i := stmt[i].(xform := stmt[i].xform[level - 1 := row])];
        }
      }
    }

    static method CombineRows(amounts: seq<int>, rows: seq<Row>, n: nat) returns (row: Row)
      requires Applicable(amounts, |rows|) && IsMap(rows, n)
      ensures row == Combined(amounts, rows, n, |amounts|)
    {
      row := Row(seq(n, _ => 0), 0);
      for j := 0 to |amounts|
        invariant row == Combined(amounts, rows, n, j)
      {
        if amounts[j] != 0 {
          row := AddScaled(row, amounts[j], rows[j]);
        }
      }
    }

    /** The interval accumulation of skew (chill/loop_basic.cc:967-1014). */
    static method SkewBounds(dv: DependenceVector, amounts: seq<int>) returns (lb: Bound, ub: Bound)
      requires dv.Valid() && Applicable(amounts, |dv.lbounds|)
      ensures lb == SkewLow(dv, amounts, |amounts|) && ub == SkewHigh(dv, amounts, |amounts|)
    {
      lb, ub := ZERO, ZERO;
      for kk := 0 to |amounts|
        invariant lb == SkewLow(dv, amounts, kk) && ub == SkewHigh(dv, amounts, kk)
      {
        var amount := amounts[kk];
        if amount > 0 {
          if lb != NegInf && dv.lbounds[kk] != NegInf {
            lb := Fin(lb.v + amount * dv.lbounds[kk].v);
          } else if !(dv.lbounds[kk] == ZERO && dv.ubounds[kk] == ZERO) {
            lb := NegInf;
          }
          if ub != PosInf && dv.ubounds[kk] != PosInf {
            ub := Fin(ub.v + amount * dv.ubounds[kk].v);
          } else if !(dv.lbounds[kk] == ZERO && dv.ubounds[kk] == ZERO) {
            ub := PosInf;
          }
        } else if amount < 0 {
          if lb != NegInf && dv.ubounds[kk] != PosInf {
            lb := Fin(lb.v + amount * dv.ubounds[kk].v);
          } else if !(dv.lbounds[kk] == ZERO && dv.ubounds[kk] == ZERO) {
            lb := NegInf;
          }
          if ub != PosInf && dv.lbounds[kk] != NegInf {
            ub := Fin(ub.v + amount * dv.lbounds[kk].v);
          } else if !(dv.lbounds[kk] == ZERO && dv.ubounds[kk] == ZERO) {
            ub := PosInf;
          }
        }
      }
    }

    /**
     One dependence between skewed statements (chill/loop_basic.cc:965-1036). The source
     makes the two tests twice.
     */
    static method SkewDependence(d: DependenceVector, dim: nat, amounts: seq<int>) returns (r: Result<DependenceVector>)
      requires d.Valid() && (d.IsData() ==> dim < |d.lbounds| && Applicable(amounts, |d.lbounds|))
      ensures r == SkewVector(d, dim, amounts)
    {
      var dv := d;
      if dv.IsData() {
        var lb, ub := SkewBounds(dv, amounts);
        SkewIntervalExact(d, amounts);
        dv := dv.(lbounds := dv.lbounds[dim := lb]);
        dv := dv.(ubounds := dv.ubounds[dim := ub]);
        var carried := dv.IsCarried(dim, PosInf);
        var positive := dv.HasPositive(dim);
        var negative := dv.HasNegative(dim);
        PositiveAt(dv, dim);
        if carried.value && positive.value && dv.quasi {
          dv := dv.(quasi := false);
        }
        if carried.value && negative.value && !dv.quasi {
          return Throw(LoopError);
        }
      }
      return Ok(dv);
    }

    static lemma PositiveAt(d: DependenceVector, dim: nat)
      requires d.Valid() && dim < |d.lbounds|
      ensures (forall v :: d.Contains(v) ==> v[dim] > 0) <==> d.lbounds[dim].AboveZero()
      ensures (forall v :: d.Contains(v) ==> v[dim] < 0) <==> d.ubounds[dim].BelowZero()
    {
      var v := d.NearestMember();
      assert d.Contains(v);
    }

    static method SkewDependences(ds: seq<DependenceVector>, dim: nat, amounts: seq<int>, n: nat)
      returns (r: Result<seq<DependenceVector>>)
      requires AllFit(ds, n) && dim < n && Applicable(amounts, n)
      ensures r == SkewList(ds, dim, amounts)
    {
      var dvs := [];
      ghost var f := SkewedOne(dim, amounts);
      for k := 0 to |ds|
        invariant FlatMap(ds, f, k) == Ok(dvs)
      {
        var dv := SkewDependence(ds[k], dim, amounts);
        FlatMapNext(ds, f, k, if dv.Ok? then Ok([dv.value]) else Throw(dv.error));
        if dv.Throw? {
          FlatMapStays(ds, f, k + 1, |ds|);
          return Throw(dv.error);
        }
        dvs := dvs + [dv.value];
      }
      return Ok(dvs);
    }

    static method ForgetDimension(ds: seq<DependenceVector>, dim: nat, n: nat) returns (dvs: seq<DependenceVector>)
      requires AllFit(ds, n) && dim < n
      ensures dvs == UnknownAtList(ds, dim)
    {
      dvs := ds;
      for k := 0 to |ds|
        invariant |dvs| == |ds|
        invariant forall m :: 0 <= m < k ==> dvs[m] == UnknownAt(ds[m], dim)
        invariant forall m :: k <= m < |ds| ==> dvs[m] == ds[m]
      {
        var dv := dvs[k];
        if dv.IsData() {
          dv := dv.(lbounds := dv.lbounds[dim := NegInf]);
          dv := dv.(ubounds := dv.ubounds[dim := PosInf]);
          assert dv == UnknownAt(ds[k], dim);
        }
        dvs := dvs[k := dv];
      }
    }

    /** One edge that leaves a skewed statement (chill/loop_basic.cc:961-1050). */
    static method SkewEdge(ds: seq<DependenceVector>, inside: bool, dim: nat, amounts: seq<int>, n: nat)
      returns (r: Result<seq<DependenceVector>>)
      requires AllFit(ds, n) && dim < n && Applicable(amounts, n)
      ensures r == if inside then SkewList(ds, dim, amounts) else Ok(UnknownAtList(ds, dim))
      ensures r.Throw? ==> r.error == LoopError
    {
      if inside {
        r := SkewDependences(ds, dim, amounts, n);
        if r.Throw? {
          SkewListError(ds, dim, amounts);
        }
      } else {
        var dvs := ForgetDimension(ds, dim, n);
        r := Ok(dvs);
      }
    }

    /** All edges that leave skewed statement i; dep is the graph g as updated so far. */
    static method SkewRow(g: DependenceGraph, dep0: DependenceGraph, active: set<int>, i: nat, dim: nat,
                          amounts: seq<int>, n: nat)
      returns (r: Result<()>, dep: DependenceGraph)
      requires g.Valid() && g.Fits(n) && dim < n && Applicable(amounts, n)
      requires i < |g.vertex| && i in active
      requires g.PartlyUpdated(dep0, SkewedEdges(active, dim, amounts), FromActive(active, i, 0))
      ensures r.Throw? ==> r.error == LoopError
      ensures r.Throw? <==> RowRejects(g, active, i, dim, amounts)
      ensures r.Throw? ==> exists j: nat :: StoppedInRow(g, dep, active, dim, amounts, i, j)
      ensures r.Ok? ==> g.PartlyUpdated(dep, SkewedEdges(active, dim, amounts), FromActive(active, i, |g.vertex|))
    {
      ghost var f := SkewedEdges(active, dim, amounts);
      dep := dep0;
      for j := 0 to |g.vertex|
        invariant g.PartlyUpdated(dep, f, FromActive(active, i, j))
        invariant forall b {:trigger SkewList(g.Edge(i, b), dim, amounts)} :: b in active && b < j ==>
                  SkewList(g.Edge(i, b), dim, amounts).Ok?
      {
        UndoneEdge(g, dep, f, FromActive(active, i, j), i, j);
        FromActiveNext(g, dep, f, active, i, j);
        if j in dep.vertex[i] {
          g.EdgeFits(i, j, n);
          var dvs := SkewEdge(dep.vertex[i][j], j in active, dim, amounts, n);
          if dvs.Throw? {
            assert StoppedInRow(g, dep, active, dim, amounts, i, j);
            return Throw(dvs.error), dep;
          }
          SkewedEdgeList(active, dim, amounts, i, j, g.vertex[i][j]);
          dep := dep.Replace(i, j, dvs.value);
        }
      }
      EdgesInRange(g);
      return Ok(()), dep;
    }

    /** Edge (i, j) is the first of row i to be rejected; what was visited before it is updated. */
    ghost static predicate StoppedInRow(g: DependenceGraph, dep: DependenceGraph, active: set<int>, dim: nat,
                                        amounts: seq<int>, i: nat, j: nat) {
      && i in active && j in active && SkewList(g.Edge(i, j), dim, amounts).Throw?
      && (forall b {:trigger SkewList(g.Edge(i, b), dim, amounts)} :: b in active && b < j ==>
        SkewList(g.Edge(i, b), dim, amounts).Ok?)
      && g.PartlyUpdated(dep, SkewedEdges(active, dim, amounts), FromActive(active, i, j))
    }

    /**
     Edge (i, j) is the first of the graph to be rejected; what was visited before it is
     updated, the rest is as in g.
     */
    ghost static predicate StoppedAt(g: DependenceGraph, dep: DependenceGraph, active: set<int>, dim: nat,
                                     amounts: seq<int>, i: nat, j: nat) {
      && StoppedInRow(g, dep, active, dim, amounts, i, j)
      && forall a {:trigger RowRejects(g, active, a, dim, amounts)} :: a in active && a < i ==>
        !RowRejects(g, active, a, dim, amounts)
    }

    ghost static predicate Stopped(g: DependenceGraph, dep: DependenceGraph, active: set<int>, dim: nat,
                                   amounts: seq<int>) {
      exists i: nat, j: nat :: StoppedAt(g, dep, active, dim, amounts, i, j)
    }

    ghost static predicate RowRejects(g: DependenceGraph, active: set<int>, i: int, dim: nat, amounts: seq<int>) {
      exists b {:trigger SkewList(g.Edge(i, b), dim, amounts)} :: b in active
        && SkewList(g.Edge(i, b), dim, amounts).Throw?
    }

    /** Edges that leave skewed statements (chill/loop_basic.cc:956-1050). */
    static method SkewFromActive(g: DependenceGraph, active: set<int>, dim: nat, amounts: seq<int>, n: nat)
      returns (r: Result<()>, dep: DependenceGraph)
      requires g.Valid() && g.Fits(n) && dim < n && Applicable(amounts, n)
      ensures r.Throw? <==> SkewRejects(g, active, dim, amounts)
      ensures r.Throw? ==> r.error == LoopError
      ensures r.Throw? ==> Stopped(g, dep, active, dim, amounts)
      ensures r.Ok? ==> g.PartlyUpdated(dep, SkewedEdges(active, dim, amounts), FromActive(active, |g.vertex|, 0))
    {
      ghost var f := SkewedEdges(active, dim, amounts);
      dep := g;
      StartUpdate(g, f, FromActive(active, 0, 0));
      for i := 0 to |g.vertex|
        invariant g.PartlyUpdated(dep, f, FromActive(active, i, 0))
        invariant forall a {:trigger RowRejects(g, active, a, dim, amounts)} :: a in active && a < i ==>
                  !RowRejects(g, active, a, dim, amounts)
      {
        if i in active {
          r, dep := SkewRow(g, dep, active, i, dim, amounts, n);
          if r.Throw? {
            RejectingRows(g, active, dim, amounts);
            ghost var j: nat :| StoppedInRow(g, dep, active, dim, amounts, i, j);
            assert StoppedAt(g, dep, active, dim, amounts, i, j);
            return;
          }
        }
        NextActiveRow(g, dep, f, active, i);
      }
      RejectingRows(g, active, dim, amounts);
      r := Ok(());
    }

    static lemma RejectingRows(g: DependenceGraph, active: set<int>, dim: nat, amounts: seq<int>)
      ensures SkewRejects(g, active, dim, amounts) <==>
              exists a {:trigger RowRejects(g, active, a, dim, amounts)} :: a in active && a < |g.vertex|
                && RowRejects(g, active, a, dim, amounts)
    {
      if SkewRejects(g, active, dim, amounts) {
        var i, j :| i in active && j in active && SkewList(g.Edge(i, j), dim, amounts).Throw?;
        assert g.Edge(i, j) != [];
        assert RowRejects(g, active, i, dim, amounts);
      }
    }

    static lemma StartUpdate(g: DependenceGraph, f: EdgeMap, done: (int, int) -> bool)
      requires forall a: int, b: int :: 0 <= a < |g.vertex| && b in g.vertex[a] ==> !done(a, b)
      ensures g.PartlyUpdated(g, f, done)
    {
      forall a | 0 <= a < |g.vertex|
        ensures g.IsUpdatedRow(g.vertex[a], a, f, done)
      {
      }
    }

    static lemma SkewListError(ds: seq<DependenceVector>, dim: nat, amounts: seq<int>)
      requires SkewList(ds, dim, amounts).Throw?
      ensures SkewList(ds, dim, amounts) == Throw(LoopError)
    {
      FlatMapError(ds, SkewedOne(dim, amounts), |ds|, LoopError);
    }

    static lemma EdgesInRange(g: DependenceGraph)
      requires g.Valid()
      ensures forall i: int, j: int :: 0 <= i < |g.vertex| && j in g.vertex[i] ==> 0 <= j < |g.vertex|
    {
      forall i: int, j: int | 0 <= i < |g.vertex| && j in g.vertex[i]
        ensures 0 <= j < |g.vertex|
      {
        assert g.ValidEdge(i, j);
      }
    }

    /** All edges from unskewed statement i into skewed ones. */
    static method SkewRowInto(g: DependenceGraph, dep0: DependenceGraph, active: set<int>, i: nat, dim: nat,
                              ghost amounts: seq<int>, n: nat)
      returns (dep: DependenceGraph)
      requires g.Valid() && g.Fits(n) && dim < n
      requires i < |g.vertex| && i !in active
      requires g.PartlyUpdated(dep0, SkewedEdges(active, dim, amounts), ThenToActive(active, i, 0))
      ensures g.PartlyUpdated(dep, SkewedEdges(active, dim, amounts), ThenToActive(active, i, |g.vertex|))
    {
      ghost var f := SkewedEdges(active, dim, amounts);
      dep := dep0;
      for j := 0 to |g.vertex|
        invariant g.PartlyUpdated(dep, f, ThenToActive(active, i, j))
      {
        UndoneEdge(g, dep, f, ThenToActive(active, i, j), i, j);
        ThenToActiveNext(g, dep, f, active, i, j);
        if j in dep.vertex[i] && j in active {
          g.EdgeFits(i, j, n);
          var dvs := ForgetDimension(dep.vertex[i][j], dim, n);
          SkewedEdgeList(active, dim, amounts, i, j, g.vertex[i][j]);
          dep := dep.Replace(i, j, dvs);
        }
      }
    }

    /** Edges from other statements into skewed ones (chill/loop_basic.cc:1051-1068). */
    static method SkewToActive(g: DependenceGraph, dep0: DependenceGraph, active: set<int>, dim: nat,
                               ghost amounts: seq<int>, n: nat)
      returns (dep: DependenceGraph)
      requires g.Valid() && g.Fits(n) && dim < n
      requires g.PartlyUpdated(dep0, SkewedEdges(active, dim, amounts), FromActive(active, |g.vertex|, 0))
      ensures dep == g.Updated(SkewedEdges(active, dim, amounts))
    {
      ghost var f := SkewedEdges(active, dim, amounts);
      dep := dep0;
      EdgesInRange(g);
      g.SameProgress(dep, f, FromActive(active, |g.vertex|, 0), ThenToActive(active, 0, 0));
      for i := 0 to |g.vertex|
        invariant g.PartlyUpdated(dep, f, ThenToActive(active, i, 0))
      {
        if i !in active {
          dep := SkewRowInto(g, dep, active, i, dim, amounts, n);
        }
        NextOtherRow(g, dep, f, active, i);
      }
      g.AllUpdated(dep, f, ThenToActive(active, |g.vertex|, 0));
    }

    method Skew(active: set<int>, level: int, amounts: seq<int>) returns (r: Result<()>)
      requires Valid()
      modifies this
      ensures |stmt| == |old(stmt)| && numDepDim == old(numDepDim)
      ensures r.Throw? ==> SkewOutcome(old(State()), active, level, amounts) == Throw(r.error)
      ensures r == Throw(InvalidArgument) ==> State() == old(State())
      ensures r == Throw(LoopError) ==> stmt == SkewedState(old(State()), active, level, amounts).stmt
      ensures r == Throw(LoopError) ==> Stopped(old(dep), dep, active, level - 1, amounts)
      ensures r.Ok? ==> SkewOutcome(old(State()), active, level, amounts) == Ok(State())
    {
      if active == {} {
        return Ok(());
      }
      var _ :- CheckSkew(active, level, amounts);
      ghost var goal := SkewedState(State(), active, level, amounts);
      var before := dep;
      SkewXforms(active, level, amounts);
      assert stmt == goal.stmt;
      r := SkewStored(before, active, level, amounts);
      assert r.Ok? ==> State() == goal;
    }

    /** The graph update of skew (chill/loop_basic.cc:954-1069). */
    method SkewStored(g: DependenceGraph, active: set<int>, level: int, amounts: seq<int>) returns (r: Result<()>)
      requires g.Valid() && g.Fits(numDepDim) && 1 <= level <= numDepDim && Applicable(amounts, numDepDim)
      modifies this`dep
      ensures r.Throw? <==> SkewRejects(g, active, level - 1, amounts)
      ensures r.Throw? ==> r.error == LoopError
      ensures r.Throw? ==> Stopped(g, dep, active, level - 1, amounts)
      ensures r.Ok? ==> dep == g.Updated(SkewedEdges(active, level - 1, amounts))
    {
      r, dep := SkewGraph(g, active, level - 1, amounts, numDepDim);
    }

    static method SkewGraph(g: DependenceGraph, active: set<int>, dim: nat, amounts: seq<int>, n: nat)
      returns (r: Result<()>, dep: DependenceGraph)
      requires g.Valid() && g.Fits(n) && dim < n && Applicable(amounts, n)
      ensures r.Throw? <==> SkewRejects(g, active, dim, amounts)
      ensures r.Throw? ==> r.error == LoopError
      ensures r.Throw? ==> Stopped(g, dep, active, dim, amounts)
      ensures r.Ok? ==> dep == g.Updated(SkewedEdges(active, dim, amounts))
    {
      r, dep := SkewFromActive(g, active, dim, amounts, n);
      if r.Ok? {
        dep := SkewToActive(g, dep, active, dim, amounts, n);
      }
    }

    method Scale(active: set<int>, level: int, amount: int) returns (r: Result<()>)
      requires Valid() && level >= 1
      modifies this
      ensures |stmt| == |old(stmt)| && numDepDim == old(numDepDim)
      ensures r.Throw? ==> SkewOutcome(old(State()), active, level, ScaleAmounts(level, amount)) == Throw(r.error)
      ensures r == Throw(InvalidArgument) ==> State() == old(State())
      ensures r == Throw(LoopError) ==>
                stmt == SkewedState(old(State()), active, level, ScaleAmounts(level, amount)).stmt
                && Stopped(old(dep), dep, active, level - 1, ScaleAmounts(level, amount))
      ensures r.Ok? ==> SkewOutcome(old(State()), active, level, ScaleAmounts(level, amount)) == Ok(State())
    {
      var skewAmount := seq(level, _ => 0);
      skewAmount := skewAmount[level - 1 := amount];
      assert skewAmount == ScaleAmounts(level, amount);
      r := Skew(active, level, skewAmount);
    }

    method Reverse(active: set<int>, level: int) returns (r: Result<()>)
      requires Valid() && level >= 1
      modifies this
      ensures |stmt| == |old(stmt)| && numDepDim == old(numDepDim)
      ensures r.Throw? ==> SkewOutcome(old(State()), active, level, ScaleAmounts(level, -1)) == Throw(r.error)
      ensures r == Throw(InvalidArgument) ==> State() == old(State())
      ensures r == Throw(LoopError) ==>
                stmt == SkewedState(old(State()), active, level, ScaleAmounts(level, -1)).stmt
                && Stopped(old(dep), dep, active, level - 1, ScaleAmounts(level, -1))
      ensures r.Ok? ==> SkewOutcome(old(State()), active, level, ScaleAmounts(level, -1)) == Ok(State())
    {
      r := Scale(active, level, -1);
    }

    // ---------- shift ----------

    method CheckShift(active: set<int>, level: int) returns (r: Result<()>)
      requires Valid() && active != {}
      ensures r.Ok? <==> ShiftArguments(State(), active, level)
      ensures r.Throw? ==> r.error == InvalidArgument
    {
      if exists a :: a in active && !(0 <= a < |stmt|) {
        return Throw(InvalidArgument);
      }
      if level < 1 || level > numDepDim {
        return Throw(InvalidArgument);
      }
      return Ok(());
    }

    /** Adds the shift to one level of each active xform (chill/loop_basic.cc:1095-1112). */
    method ShiftXforms(active: set<int>, level: int, amount: int)
      requires Valid() && ShiftArguments(State(), active, level)
      modifies this`stmt
      ensures |stmt| == |old(stmt)|
      ensures forall i :: 0 <= i < |stmt| ==>
                            stmt[i] == if i in active then ShiftedStatement(old(stmt[i]), level, amount)
                              else old(stmt[i])
    {
      for i := 0 to |stmt|
        invariant |stmt| == |old(stmt)|
        invariant forall m :: 0 <= m < i ==>
                                stmt[m] == if m in active then ShiftedStatement(old(stmt[m]), level, amount)
                                  else old(stmt[m])
        invariant forall m :: i <= m < |stmt| ==> stmt[m] == old(stmt[m])
      {
        if i in active {
          assert stmt[i].Valid(numDepDim);
          var row := stmt[i].xform[level - 1];
          row := row.(offset := row.offset + amount);
          stmt := stmt[i := stmt[i].(xform := stmt[i].xform[level - 1 := row])];
        }
      }
    }

    static method ShiftDependences(ds: seq<DependenceVector>, dim: nat, amount: int, n: nat)
      returns (dvs: seq<DependenceVector>)
      requires AllFit(ds, n) && dim < n
      ensures dvs == ShiftList(ds, dim, amount)
    {
      dvs := ds;
      for k := 0 to |ds|
        invariant |dvs| == |ds|
        invariant forall m :: 0 <= m < k ==> dvs[m] == ShiftVector(ds[m], dim, amount)
        invariant forall m :: k <= m < |ds| ==> dvs[m] == ds[m]
      {
        var dv := dvs[k];
        if dv.IsData() {
          if dv.lbounds[dim] != NegInf {
            dv := dv.(lbounds := dv.lbounds[dim := Fin(dv.lbounds[dim].v + amount)]);
          }
          if dv.ubounds[dim] != PosInf {
            dv := dv.(ubounds := dv.ubounds[dim := Fin(dv.ubounds[dim].v + amount)]);
          }
          assert dv.lbounds == ShiftVector(ds[k], dim, amount).lbounds;
          assert dv.ubounds == ShiftVector(ds[k], dim, amount).ubounds;
        }
        dvs := dvs[k := dv];
      }
    }

    /** Edges from shifted statements to others (chill/loop_basic.cc:1117-1135). */
    static method ShiftFromActive(g: DependenceGraph, active: set<int>, dim: nat, amount: int, n: nat)
      returns (dep: DependenceGraph)
      requires g.Valid() && g.Fits(n) && dim < n
      ensures g.PartlyUpdated(dep, ShiftedEdges(active, dim, amount), FromActive(active, |g.vertex|, 0))
    {
      ghost var f := ShiftedEdges(active, dim, amount);
      dep := g;
      StartUpdate(g, f, FromActive(active, 0, 0));
      for i := 0 to |g.vertex|
        invariant g.PartlyUpdated(dep, f, FromActive(active, i, 0))
      {
        if i in active {
          dep := ShiftRow(g, dep, active, i, dim, amount, n);
        }
        NextActiveRow(g, dep, f, active, i);
      }
    }

    static method ShiftRow(g: DependenceGraph, dep0: DependenceGraph, active: set<int>, i: nat, dim: nat, amount: int,
                           n: nat)
      returns (dep: DependenceGraph)
      requires g.Valid() && g.Fits(n) && dim < n && i < |g.vertex| && i in active
      requires g.PartlyUpdated(dep0, ShiftedEdges(active, dim, amount), FromActive(active, i, 0))
      ensures g.PartlyUpdated(dep, ShiftedEdges(active, dim, amount), FromActive(active, i, |g.vertex|))
    {
      ghost var f := ShiftedEdges(active, dim, amount);
      dep := dep0;
      for j := 0 to |g.vertex|
        invariant g.PartlyUpdated(dep, f, FromActive(active, i, j))
      {
        UndoneEdge(g, dep, f, FromActive(active, i, j), i, j);
        FromActiveNext(g, dep, f, active, i, j);
        if j in dep.vertex[i] {
          ShiftedEdgeList(active, dim, amount, i, j, g.vertex[i][j]);
          if j !in active {
            g.EdgeFits(i, j, n);
            var dvs := ShiftDependences(dep.vertex[i][j], dim, -amount, n);
            dep := dep.Replace(i, j, dvs);
          } else {
            KeepEdge(g, dep, f, FromActive(active, i, j), FromActive(active, i, j + 1));
          }
        }
      }
    }

    /** An edge whose list stays as it is counts as done. */
    static lemma KeepEdge(g: DependenceGraph, h: DependenceGraph, f: EdgeMap, done: (int, int) -> bool,
                          next: (int, int) -> bool)
      requires g.PartlyUpdated(h, f, done)
      requires forall a: int, b: int :: 0 <= a < |g.vertex| && b in g.vertex[a] && done(a, b) != next(a, b) ==>
               f(a, b, g.vertex[a][b]) == g.vertex[a][b]
      ensures g.PartlyUpdated(h, f, next)
    {
      g.SameProgress(h, f, done, next);
    }

    static method ShiftRowInto(g: DependenceGraph, dep0: DependenceGraph, active: set<int>, i: nat, dim: nat,
                               amount: int, n: nat)
      returns (dep: DependenceGraph)
      requires g.Valid() && g.Fits(n) && dim < n && i < |g.vertex| && i !in active
      requires g.PartlyUpdated(dep0, ShiftedEdges(active, dim, amount), ThenToActive(active, i, 0))
      ensures g.PartlyUpdated(dep, ShiftedEdges(active, dim, amount), ThenToActive(active, i, |g.vertex|))
    {
      ghost var f := ShiftedEdges(active, dim, amount);
      dep := dep0;
      for j := 0 to |g.vertex|
        invariant g.PartlyUpdated(dep, f, ThenToActive(active, i, j))
      {
        UndoneEdge(g, dep, f, ThenToActive(active, i, j), i, j);
        ThenToActiveNext(g, dep, f, active, i, j);
        if j in dep.vertex[i] && j in active {
          g.EdgeFits(i, j, n);
          ShiftedEdgeList(active, dim, amount, i, j, g.vertex[i][j]);
          var dvs := ShiftDependences(dep.vertex[i][j], dim, amount, n);
          dep := dep.Replace(i, j, dvs);
        }
      }
    }

    /** Edges from other statements into shifted ones (chill/loop_basic.cc:1136-1154). */
    static method ShiftToActive(g: DependenceGraph, dep0: DependenceGraph, active: set<int>, dim: nat, amount: int,
                                n: nat)
      returns (dep: DependenceGraph)
      requires g.Valid() && g.Fits(n) && dim < n
      requires g.PartlyUpdated(dep0, ShiftedEdges(active, dim, amount), FromActive(active, |g.vertex|, 0))
      ensures dep == g.Updated(ShiftedEdges(active, dim, amount))
    {
      ghost var f := ShiftedEdges(active, dim, amount);
      dep := dep0;
      EdgesInRange(g);
      g.SameProgress(dep, f, FromActive(active, |g.vertex|, 0), ThenToActive(active, 0, 0));
      for i := 0 to |g.vertex|
        invariant g.PartlyUpdated(dep, f, ThenToActive(active, i, 0))
      {
        if i !in active {
          dep := ShiftRowInto(g, dep, active, i, dim, amount, n);
        }
        NextOtherRow(g, dep, f, active, i);
      }
      g.AllUpdated(dep, f, ThenToActive(active, |g.vertex|, 0));
    }

    static method ShiftGraph(g: DependenceGraph, active: set<int>, dim: nat, amount: int, n: nat)
      returns (dep: DependenceGraph)
      requires g.Valid() && g.Fits(n) && dim < n
      ensures dep == g.Updated(ShiftedEdges(active, dim, amount))
    {
      dep := ShiftFromActive(g, active, dim, amount, n);
      dep := ShiftToActive(g, dep, active, dim, amount, n);
    }

    method Shift(active: set<int>, level: int, amount: int) returns (r: Result<()>)
      requires Valid()
      modifies this
      ensures |stmt| == |old(stmt)| && numDepDim == old(numDepDim)
      ensures r.Throw? ==>
                ShiftOutcome(old(State()), active, level, amount) == Throw(r.error) && State() == old(State())
      ensures r.Ok? ==> ShiftOutcome(old(State()), active, level, amount) == Ok(State())
    {
      if active == {} {
        return Ok(());
      }
      var _ :- CheckShift(active, level);
      if amount == 0 {
        return Ok(());
      }
      ghost var goal := ShiftedState(State(), active, level, amount);
      var before := dep;
      ShiftXforms(active, level, amount);
      assert stmt == goal.stmt;
      dep := ShiftGraph(before, active, level - 1, amount, numDepDim);
      assert State() == goal;
      return Ok(());
    }
  }

  /** Done so far: edges that leave active statements, up to target j of statement i. */
  ghost function FromActive(active: set<int>, i: int, j: int): (int, int) -> bool {
    (a: int, b: int) => a in active && (a < i || (a == i && b < j))
  }

  /** Done so far: all edges that leave active statements, and edges into them up to target j of statement i. */
  ghost function ThenToActive(active: set<int>, i: int, j: int): (int, int) -> bool {
    (a: int, b: int) => a in active || (b in active && (a < i || (a == i && b < j)))
  }

  /** An edge that is not done yet still has its old list. */
  lemma UndoneEdge(g: DependenceGraph, h: DependenceGraph, f: EdgeMap, done: (int, int) -> bool, i: nat, j: int)
    requires g.PartlyUpdated(h, f, done) && i < |g.vertex|
    ensures j in h.vertex[i] <==> j in g.vertex[i]
    ensures j in g.vertex[i] && !done(i, j) ==> h.vertex[i][j] == g.vertex[i][j] == g.Edge(i, j)
  {
    assert g.IsUpdatedRow(h.vertex[i], i, f, done);
  }

  lemma FromActiveNext(g: DependenceGraph, h: DependenceGraph, f: EdgeMap, active: set<int>, i: nat, j: nat)
    requires i < |g.vertex| && i in active
    requires g.PartlyUpdated(h, f, FromActive(active, i, j))
    ensures j in g.vertex[i] ==>
              j in h.vertex[i]
              && g.PartlyUpdated(h.Replace(i, j, f(i, j, g.vertex[i][j])), f, FromActive(active, i, j + 1))
    ensures j !in g.vertex[i] ==> g.PartlyUpdated(h, f, FromActive(active, i, j + 1))
  {
    if j in g.vertex[i] {
      g.UpdateEdge(h, f, FromActive(active, i, j), i, j, FromActive(active, i, j + 1));
    } else {
      g.SameProgress(h, f, FromActive(active, i, j), FromActive(active, i, j + 1));
    }
  }

  lemma ThenToActiveNext(g: DependenceGraph, h: DependenceGraph, f: EdgeMap, active: set<int>, i: nat, j: nat)
    requires i < |g.vertex| && i !in active
    requires g.PartlyUpdated(h, f, ThenToActive(active, i, j))
    ensures j in g.vertex[i] && j in active ==>
              j in h.vertex[i]
              && g.PartlyUpdated(h.Replace(i, j, f(i, j, g.vertex[i][j])), f, ThenToActive(active, i, j + 1))
    ensures !(j in g.vertex[i] && j in active) ==> g.PartlyUpdated(h, f, ThenToActive(active, i, j + 1))
  {
    if j in g.vertex[i] && j in active {
      g.UpdateEdge(h, f, ThenToActive(active, i, j), i, j, ThenToActive(active, i, j + 1));
    } else {
      g.SameProgress(h, f, ThenToActive(active, i, j), ThenToActive(active, i, j + 1));
    }
  }

  /** Moving on to the next statement. */
  lemma NextActiveRow(g: DependenceGraph, h: DependenceGraph, f: EdgeMap, active: set<int>, i: nat)
    requires g.Valid() && i < |g.vertex|
    requires g.PartlyUpdated(h, f, FromActive(active, i, if i in active then |g.vertex| else 0))
    ensures g.PartlyUpdated(h, f, FromActive(active, i + 1, 0))
  {
    Loop.EdgesInRange(g);
    g.SameProgress(h, f, FromActive(active, i, if i in active then |g.vertex| else 0), FromActive(active, i + 1, 0));
  }

  lemma NextOtherRow(g: DependenceGraph, h: DependenceGraph, f: EdgeMap, active: set<int>, i: nat)
    requires g.Valid() && i < |g.vertex|
    requires g.PartlyUpdated(h, f, ThenToActive(active, i, if i in active then 0 else |g.vertex|))
    ensures g.PartlyUpdated(h, f, ThenToActive(active, i + 1, 0))
  {
    Loop.EdgesInRange(g);
    g.SameProgress(h, f, ThenToActive(active, i, if i in active then 0 else |g.vertex|),
                   ThenToActive(active, i + 1, 0));
  }

  /** reversePi[k] is the level at which pi holds level + k. */
  ghost predicate IsReverse(pi: seq<int>, level: int, reversePi: seq<int>) {
    && |reversePi| == |pi|
    && forall k :: 0 <= k < |pi| ==> level <= reversePi[k] < level + |pi| && pi[reversePi[k] - level] == k + level
  }
}
