/**
 The state the loop transformations work on (chill/loop.hh:42-83, 119-140) and
 what each transformation makes of it. Every loop level is LoopLevelOriginal with
 payload equal to its position, as Loop's initialization creates them; numbers of
 loop levels count from 1 in arguments and from 0 in vectors.
 */
module LoopStates {
  import opened Outcomes
  import opened Bounds
  import opened Permutations
  import opened Lists
  import opened DependenceVectors
  import opened DependenceGraphs
  import opened Affine

  datatype LoopLevel = LoopLevel(payload: int, parallelLevel: int)

  /** Every level is original, with its own position as payload. */
  ghost predicate PlainLevels(levels: seq<LoopLevel>, n: nat) {
    |levels| == n && forall l :: 0 <= l < n ==> levels[l].payload == l
  }

  // xform: one affine row per loop level. order: the constants c_1 .. c_(n+1)
  // between the levels of the transformed iteration space.
  datatype Statement = Statement(xform: seq<Row>, loopLevel: seq<LoopLevel>, order: seq<int>) {
    ghost predicate Valid(n: nat) {
      && |xform| == n && IsMap(xform, n)
      && PlainLevels(loopLevel, n)
      && |order| == n + 1
    }
  }

  datatype LoopState = LoopState(stmt: seq<Statement>, dep: DependenceGraph, numDepDim: nat) {
    ghost predicate Valid() {
      && |stmt| == |dep.vertex|
      && dep.numDim == numDepDim
      && dep.Valid() && dep.Fits(numDepDim)
      && forall i :: 0 <= i < |stmt| ==> stmt[i].Valid(numDepDim)
    }

    ghost predicate InStatements(active: set<int>) {
      forall i :: i in active ==> 0 <= i < |stmt|
    }
  }

  // ---------- permute (chill/loop_basic.cc:252-482) ----------

  /** The smallest loop level in pi. */
  ghost function LowestLevel(pi: seq<int>): (m: int)
    requires pi != []
    ensures m in pi && forall i :: 0 <= i < |pi| ==> m <= pi[i]
  {
    LowestExists(pi);
    var m :| m in pi && forall i :: 0 <= i < |pi| ==> m <= pi[i];
    m
  }

  lemma {:induction false} LowestExists(pi: seq<int>)
    requires pi != []
    ensures exists m :: m in pi && forall i :: 0 <= i < |pi| ==> m <= pi[i]
  {
    var front, last := pi[..|pi| - 1], pi[|pi| - 1];
    assert pi == front + [last];
    if front == [] {
      assert last in pi && forall i :: 0 <= i < |pi| ==> last <= pi[i];
    } else {
      LowestExists(front);
      var m :| m in front && forall i :: 0 <= i < |front| ==> m <= front[i];
      var least := if last < m then last else m;
      assert least in pi && forall i :: 0 <= i < |pi| ==> least <= pi[i];
    }
  }

  /** pi counted from its lowest level. */
  function Shifted(pi: seq<int>, level: int): (s: seq<int>)
    ensures |s| == |pi| && forall i :: 0 <= i < |pi| ==> s[i] == pi[i] - level
  {
    seq(|pi|, i requires 0 <= i < |pi| => pi[i] - level)
  }

  ghost predicate PermutesLevels(pi: seq<int>) {
    pi != [] && LowestLevel(pi) >= 1 && IsPermutation(Shifted(pi, LowestLevel(pi)), |pi|)
  }

  /** The statements agree on every order constant outside the permuted levels. */
  ghost predicate SameSubloop(stmt: seq<Statement>, active: set<int>, level: int) {
    forall a, b, c :: a in active && b in active && 0 <= a < |stmt| && 0 <= b < |stmt|
                      && 0 <= c < level - 1 && c < |stmt[a].order| && c < |stmt[b].order| ==>
                        stmt[a].order[c] == stmt[b].order[c]
  }

  /** What the argument checks accept. The level range is not checked for the first active statement. */
  ghost predicate PermuteArguments(s: LoopState, active: set<int>, pi: seq<int>) {
    && PermutesLevels(pi)
    && s.InStatements(active)
    && (|active| > 1 ==> LowestLevel(pi) + |pi| - 1 <= s.numDepDim)
    && SameSubloop(s.stmt, active, LowestLevel(pi))
  }

  /** The permutation of dependence dimensions: pi on its levels, the identity elsewhere. */
  function DependencePermutation(pi: seq<int>, level: int, n: nat): (p: seq<int>)
    requires 1 <= level && level + |pi| - 1 <= n
    ensures |p| == n
  {
    seq(n, d requires 0 <= d < n => if level - 1 <= d < level - 1 + |pi| then pi[d - (level - 1)] - 1 else d)
  }

  lemma DependencePermutationIsPermutation(pi: seq<int>, level: int, n: nat)
    requires 1 <= level && level + |pi| - 1 <= n && IsPermutation(Shifted(pi, level), |pi|)
    ensures IsPermutation(DependencePermutation(pi, level, n), n)
  {
    var s, p := Shifted(pi, level), DependencePermutation(pi, level, n);
    forall d | 0 <= d < n
      ensures 0 <= p[d] < n
    {
      if level - 1 <= d < level - 1 + |pi| {
        assert 0 <= s[d - (level - 1)] < |pi|;
      }
    }
    forall k | 0 <= k < n
      ensures k in p
    {
      if level - 1 <= k < level - 1 + |pi| {
        var i := PositionOf(s, k - (level - 1));
        assert p[level - 1 + i] == k;
      } else {
        assert p[k] == k;
      }
    }
  }

  /** New loop level l keeps the number l; its parallel tag is read through the inverse of pi. */
  ghost function PermutedLevels(levels: seq<LoopLevel>, pi: seq<int>, level: int): (r: seq<LoopLevel>)
    requires 1 <= level && level + |pi| - 1 <= |levels| && IsPermutation(Shifted(pi, level), |pi|)
    ensures |r| == |levels|
  {
    seq(|levels|, l requires 0 <= l < |levels| =>
      LoopLevel(l, levels[TagSource(pi, level, l)].parallelLevel))
  }

  /** The old level (from 0) whose parallel tag new level l gets. */
  ghost function TagSource(pi: seq<int>, level: int, l: nat): (o: nat)
    requires 1 <= level && IsPermutation(Shifted(pi, level), |pi|)
    ensures level - 1 <= l < level - 1 + |pi| ==> level - 1 <= o < level - 1 + |pi| && pi[o - (level - 1)] == l + 1
    ensures !(level - 1 <= l < level - 1 + |pi|) ==> o == l
  {
    if level - 1 <= l < level - 1 + |pi| then level - 1 + PositionOf(Shifted(pi, level), l - (level - 1)) else l
  }

  ghost function WithPermutedXform(s: Statement, pi: seq<int>, level: int): Statement
    requires 1 <= level && level + |pi| - 1 <= |s.xform| && IsPermutation(Shifted(pi, level), |pi|)
  {
    var p := DependencePermutation(pi, level, |s.xform|);
    if InRange(p, |s.xform|) then s.(xform := Rearranged(s.xform, p)) else s
  }

  ghost function PermutedStatement(s: Statement, pi: seq<int>, level: int, order: seq<int>): Statement
    requires 1 <= level && level + |pi| - 1 <= |s.xform| == |s.loopLevel| && IsPermutation(Shifted(pi, level), |pi|)
  {
    var p := DependencePermutation(pi, level, |s.xform|);
    if InRange(p, |s.xform|) then
      Statement(Rearranged(s.xform, p), PermutedLevels(s.loopLevel, pi, level), order)
    else
      s
  }

  /** The lists Loop::permute stores: permuted but not normalized, jumbled across the active set. */
  ghost function StoredVector(d: DependenceVector, p: seq<int>): DependenceVector {
    if d.IsData() && InRange(p, |p|) && |d.lbounds| == |d.ubounds| == |p| then d.Permuted(p) else d
  }

  ghost function JumbledVector(d: DependenceVector, p: seq<int>): DependenceVector {
    if d.IsData() then Jumbled(d, p) else d
  }

  ghost function StoredList(ds: seq<DependenceVector>, p: seq<int>): (es: seq<DependenceVector>)
    ensures |es| == |ds|
  {
    seq(|ds|, k requires 0 <= k < |ds| => StoredVector(ds[k], p))
  }

  ghost function JumbledDataList(ds: seq<DependenceVector>, p: seq<int>): (es: seq<DependenceVector>)
    ensures |es| == |ds|
  {
    seq(|ds|, k requires 0 <= k < |ds| => JumbledVector(ds[k], p))
  }

  ghost function StoredEdges(p: seq<int>, active: set<int>): EdgeMap {
    (i: int, j: int, ds: seq<DependenceVector>) =>
      if i in active && j in active then StoredList(ds, p)
      else if i !in active && j !in active then ds
      else JumbledDataList(ds, p)
  }

  ghost predicate HasUnknown(ds: seq<DependenceVector>) {
    exists k :: 0 <= k < |ds| && ds[k].kind == Unknown
  }

  /** A vector of unknown type on an edge that touches the active statements. */
  ghost predicate TouchesUnknown(g: DependenceGraph, active: set<int>) {
    exists i, j {:trigger g.Edge(i, j)} :: (i in active || j in active) && HasUnknown(g.Edge(i, j))
  }

  ghost function PermutedState(s: LoopState, active: set<int>, pi: seq<int>, orders: seq<seq<int>>): (t: LoopState)
    requires s.Valid() && PermutesLevels(pi) && LowestLevel(pi) + |pi| - 1 <= s.numDepDim && |orders| == |s.stmt|
    ensures |t.stmt| == |s.stmt|
  {
    var level := LowestLevel(pi);
    LoopState(
      seq(|s.stmt|, i requires 0 <= i < |s.stmt| =>
        if i in active then PermutedStatement(s.stmt[i], pi, level, orders[i]) else s.stmt[i]),
      s.dep.Mapped(s.dep.numDim, StoredEdges(DependencePermutation(pi, level, s.numDepDim), active)),
      s.numDepDim)
  }

  /** Order constants for every statement. */
  ghost predicate OrdersFit(s: LoopState, orders: seq<seq<int>>) {
    |orders| == |s.stmt| && forall i :: 0 <= i < |orders| ==> |orders[i]| == s.numDepDim + 1
  }

  /** Accepted arguments index levels and jumbled dimensions that exist; the C++ does not check this. */
  ghost predicate PermuteInBounds(s: LoopState, active: set<int>, pi: seq<int>) {
    active != {} && PermuteArguments(s, active, pi) ==>
      && LowestLevel(pi) + |pi| - 1 <= s.numDepDim
      && s.dep.JumblesInBounds(DependencePermutation(pi, LowestLevel(pi), s.numDepDim), active)
  }

  /** The graph permute stores, or the exception of the permuted graph it computes first. */
  ghost function StoredGraph(g: DependenceGraph, p: seq<int>, active: set<int>): Result<DependenceGraph> {
    match g.PermuteResult(p, active)
    case Throw(e) => Throw(e)
    case Ok(_) => if TouchesUnknown(g, active) then Throw(LoopError) else Ok(g.Mapped(g.numDim, StoredEdges(p, active)))
  }

  /**
   The outcome of Loop::permute; lexical is what setLexicalOrder does at the end: the
   constants it assigns or its exception.
   */
  ghost function PermuteOutcome(s: LoopState, active: set<int>, pi: seq<int>,
                                lexical: Result<seq<seq<int>>>): Result<LoopState>
    requires s.Valid() && PermuteInBounds(s, active, pi) && (lexical.Ok? ==> |lexical.value| == |s.stmt|)
  {
    if active == {} || pi == [] then Ok(s)
    else if !PermuteArguments(s, active, pi) then Throw(InvalidArgument)
    else
      match StoredGraph(s.dep, DependencePermutation(pi, LowestLevel(pi), s.numDepDim), active)
      case Throw(e) => Throw(e)
      case Ok(_) =>
        match lexical
        case Throw(e) => Throw(e)
        case Ok(orders) => Ok(PermutedState(s, active, pi, orders))
  }

  /**
   What an exception leaves behind: nothing is changed by rejected arguments; an
   exception of the graph comes after the iteration maps; an exception of
   setLexicalOrder comes after everything but the order constants, which are unknown.
   */
  ghost predicate PermuteLeaves(s: LoopState, active: set<int>, pi: seq<int>, t: LoopState)
    requires s.Valid() && PermuteInBounds(s, active, pi) && active != {}
  {
    && |t.stmt| == |s.stmt| && t.numDepDim == s.numDepDim
    && (if !PermuteArguments(s, active, pi) then
          t == s
        else
          var level := LowestLevel(pi);
          var stored := StoredGraph(s.dep, DependencePermutation(pi, level, s.numDepDim), active);
          && t.dep == stored.GetOr(s.dep)
          && (stored.Throw? ==> forall i :: 0 <= i < |s.stmt| ==> t.stmt[i].order == s.stmt[i].order)
          && forall i :: 0 <= i < |s.stmt| ==>
               assert s.stmt[i].Valid(s.numDepDim);
               t.stmt[i].(order := s.stmt[i].order) ==
               if i !in active then s.stmt[i]
               else if stored.Ok? then PermutedStatement(s.stmt[i], pi, level, s.stmt[i].order)
               else WithPermutedXform(s.stmt[i], pi, level))
  }

  // ---------- skew, scale, reverse (chill/loop_basic.cc:909-1070, 1158-1166) ----------

  ghost predicate SkewArguments(s: LoopState, active: set<int>, level: int, amounts: seq<int>) {
    s.InStatements(active) && 1 <= level <= s.numDepDim && Applicable(amounts, s.numDepDim)
  }

  ghost function SkewedStatement(s: Statement, level: int, amounts: seq<int>, n: nat): Statement {
    if 1 <= level <= |s.xform| == n && Applicable(amounts, n) && IsMap(s.xform, n) then
      s.(xform := s.xform[level - 1 := Combined(amounts, s.xform, n, |amounts|)])
    else
      s
  }

  /** A data dependence between skewed statements: the new interval, and the two quasi / violation tests. */
  function SkewVector(d: DependenceVector, dim: nat, amounts: seq<int>): (r: Result<DependenceVector>) {
    if d.IsData() && dim < |d.lbounds| == |d.ubounds| && Applicable(amounts, |d.lbounds|) then
      var low, high := SkewLow(d, amounts, |amounts|), SkewHigh(d, amounts, |amounts|);
      var e := d.WithInterval(dim, low, high);
      var quasi := e.quasi && !(e.CarriedWithin(dim, PosInf) && low.AboveZero());
      if e.CarriedWithin(dim, PosInf) && high.BelowZero() && !quasi then Throw(LoopError) else Ok(e.(quasi := quasi))
    else
      Ok(d)
  }

  /** A data dependence with one end skewed: nothing is known at the skewed dimension. */
  function UnknownAt(d: DependenceVector, dim: nat): DependenceVector {
    if d.IsData() && dim < |d.lbounds| == |d.ubounds| then d.WithInterval(dim, NegInf, PosInf) else d
  }

  function UnknownAtList(ds: seq<DependenceVector>, dim: nat): (es: seq<DependenceVector>)
    ensures |es| == |ds|
  {
    seq(|ds|, k requires 0 <= k < |ds| => UnknownAt(ds[k], dim))
  }

  ghost function SkewedOne(dim: nat, amounts: seq<int>): DependenceVector -> Result<seq<DependenceVector>> {
    (d: DependenceVector) =>
      match SkewVector(d, dim, amounts)
      case Ok(e) => Ok([e])
      case Throw(error) => Throw(error)
  }

  ghost function SkewList(ds: seq<DependenceVector>, dim: nat, amounts: seq<int>): Result<seq<DependenceVector>> {
    FlatMap(ds, SkewedOne(dim, amounts), |ds|)
  }

  ghost function SkewedEdges(active: set<int>, dim: nat, amounts: seq<int>): EdgeMap {
    (i: int, j: int, ds: seq<DependenceVector>) =>
      if i in active && j in active then SkewList(ds, dim, amounts).GetOr([])
      else if i in active || j in active then UnknownAtList(ds, dim)
      else ds
  }

  ghost predicate SkewRejects(g: DependenceGraph, active: set<int>, dim: nat, amounts: seq<int>) {
    exists i, j {:trigger g.Edge(i, j)} :: i in active && j in active && SkewList(g.Edge(i, j), dim, amounts).Throw?
  }

  ghost function SkewedState(s: LoopState, active: set<int>, level: int, amounts: seq<int>): (t: LoopState)
    requires level >= 1
    ensures |t.stmt| == |s.stmt|
  {
    LoopState(
      seq(|s.stmt|, i requires 0 <= i < |s.stmt| =>
        if i in active then SkewedStatement(s.stmt[i], level, amounts, s.numDepDim) else s.stmt[i]),
      s.dep.Updated(SkewedEdges(active, level - 1, amounts)),
      s.numDepDim)
  }

  ghost function SkewOutcome(s: LoopState, active: set<int>, level: int, amounts: seq<int>): Result<LoopState> {
    if active == {} then Ok(s)
    else if !SkewArguments(s, active, level, amounts) then Throw(InvalidArgument)
    else if SkewRejects(s.dep, active, level - 1, amounts) then Throw(LoopError)
    else Ok(SkewedState(s, active, level, amounts))
  }

  /** scale is a skew with a single amount at its own level. */
  function ScaleAmounts(level: int, amount: int): (r: seq<int>)
    requires level >= 1
    ensures |r| == level
  {
    seq(level - 1, _ => 0) + [amount]
  }

  // ---------- shift (chill/loop_basic.cc:1073-1156) ----------

  ghost predicate ShiftArguments(s: LoopState, active: set<int>, level: int) {
    s.InStatements(active) && 1 <= level <= s.numDepDim
  }

  function ShiftedStatement(s: Statement, level: int, amount: int): Statement {
    if 1 <= level <= |s.xform| then
      var row := s.xform[level - 1];
      s.(xform := s.xform[level - 1 := Row(row.coefs, row.offset + amount)])
    else
      s
  }

  function ShiftBound(b: Bound, amount: int): Bound {
    if b.Fin? then Fin(b.v + amount) else b
  }

  function ShiftVector(d: DependenceVector, dim: nat, amount: int): DependenceVector {
    if d.IsData() && dim < |d.lbounds| == |d.ubounds| then
      d.WithInterval(dim, ShiftBound(d.lbounds[dim], amount), ShiftBound(d.ubounds[dim], amount))
    else
      d
  }

  function ShiftList(ds: seq<DependenceVector>, dim: nat, amount: int): (es: seq<DependenceVector>)
    ensures |es| == |ds|
  {
    seq(|ds|, k requires 0 <= k < |ds| => ShiftVector(ds[k], dim, amount))
  }

  ghost function ShiftedEdges(active: set<int>, dim: nat, amount: int): EdgeMap {
    (i: int, j: int, ds: seq<DependenceVector>) =>
      if i in active && j !in active then ShiftList(ds, dim, -amount)
      else if i !in active && j in active then ShiftList(ds, dim, amount)
      else ds
  }

  ghost function ShiftedState(s: LoopState, active: set<int>, level: int, amount: int): (t: LoopState)
    requires level >= 1
    ensures |t.stmt| == |s.stmt|
  {
    LoopState(
      seq(|s.stmt|, i requires 0 <= i < |s.stmt| =>
        if i in active then ShiftedStatement(s.stmt[i], level, amount) else s.stmt[i]),
      s.dep.Updated(ShiftedEdges(active, level - 1, amount)),
      s.numDepDim)
  }

  ghost function ShiftOutcome(s: LoopState, active: set<int>, level: int, amount: int): Result<LoopState> {
    if active == {} then Ok(s)
    else if !ShiftArguments(s, active, level) then Throw(InvalidArgument)
    else if amount == 0 then Ok(s)
    else Ok(ShiftedState(s, active, level, amount))
  }

  // ---------- The edge maps, edge by edge ----------

  lemma SkewedEdgeList(active: set<int>, dim: nat, amounts: seq<int>, i: int, j: int, ds: seq<DependenceVector>)
    ensures SkewedEdges(active, dim, amounts)(i, j, ds) ==
            if i in active && j in active then SkewList(ds, dim, amounts).GetOr([])
            else if i in active || j in active then UnknownAtList(ds, dim)
            else ds
  {
  }

  lemma ShiftedEdgeList(active: set<int>, dim: nat, amount: int, i: int, j: int, ds: seq<DependenceVector>)
    ensures ShiftedEdges(active, dim, amount)(i, j, ds) ==
            if i in active && j !in active then ShiftList(ds, dim, -amount)
            else if i !in active && j in active then ShiftList(ds, dim, amount)
            else ds
  {
  }
}
