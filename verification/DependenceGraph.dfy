/**
 The dependence graph (chill/dep.cc:469-576, chill/include/chill/graph.hh). Vertex
 i has an edge list keyed by target; the C++ std::map iterates targets in
 increasing order, as the loops below do.
 */
module DependenceGraphs {
  import opened Outcomes
  import opened Bounds
  import opened Lexicographic
  import opened Lists
  import opened Permutations
  import opened DependenceVectors

  // What becomes of the list of vectors on an edge.
  type EdgeMap = (int, int, seq<DependenceVector>) -> seq<DependenceVector>

  type EdgeList = map<int, seq<DependenceVector>>

  datatype DependenceGraph = DependenceGraph(numDim: nat, vertex: seq<EdgeList>) {
    /** connect() never stores an empty list, so every edge carries a vector. */
    ghost predicate Valid() {
      forall i: nat, j: int :: i < |vertex| && j in vertex[i] ==> ValidEdge(i, j)
    }

    ghost predicate ValidEdge(i: nat, j: int)
      requires i < |vertex| && j in vertex[i]
    {
      0 <= j < |vertex| && vertex[i][j] != [] && AllValid(vertex[i][j])
    }

    /** Every data vector has n dimensions; control vectors are made without any. */
    ghost predicate Fits(n: nat) {
      forall i, j, k :: 0 <= k < |Edge(i, j)| && Edge(i, j)[k].IsData() ==>
        |Edge(i, j)[k].lbounds| == |Edge(i, j)[k].ubounds| == n
    }

    function Edge(i: int, j: int): (ds: seq<DependenceVector>) {
      if 0 <= i < |vertex| && j in vertex[i] then vertex[i][j] else []
    }

    lemma EdgeIsValid(i: int, j: int)
      requires Valid()
      ensures AllValid(Edge(i, j))
    {
      assert 0 <= i < |vertex| && j in vertex[i] ==> ValidEdge(i, j);
    }

    lemma EdgeFits(i: int, j: int, n: nat)
      requires Valid() && Fits(n)
      ensures AllFit(Edge(i, j), n)
    {
      EdgeIsValid(i, j);
    }

    /** g.connect(i, j, e): appends, and stores nothing when e is empty. */
    function Connect(i: nat, j: nat, e: seq<DependenceVector>): (g: DependenceGraph)
      requires i < |vertex|
    {
      if e == [] then this else this.(vertex := vertex[i := vertex[i][j := Edge(i, j) + e]])
    }

    /** A graph with the same vertices, as insert() builds it, and no edges. */
    function Emptied(dim: nat): DependenceGraph {
      DependenceGraph(dim, seq(|vertex|, _ => map[]))
    }

    // ---------- Building a new graph edge by edge ----------

    /** Edge lists mapped by f; edges that become empty are not stored. */
    ghost function MappedRow(f: EdgeMap, i: nat, bound: nat): EdgeList
      requires i < |vertex|
    {
      map j | j in vertex[i] && 0 <= j < bound && f(i, j, vertex[i][j]) != [] :: f(i, j, vertex[i][j])
    }

    /** The graph built so far: rows before i are done, row i is done for targets before j. */
    ghost function Built(dim: nat, f: EdgeMap, i: nat, j: nat): DependenceGraph {
      DependenceGraph(dim, seq(|vertex|, a requires 0 <= a < |vertex| =>
        if a < i then MappedRow(f, a, |vertex|) else if a == i then MappedRow(f, a, j) else map[]))
    }

    ghost function Mapped(dim: nat, f: EdgeMap): DependenceGraph {
      Built(dim, f, |vertex|, 0)
    }

    lemma MappedEdge(dim: nat, f: EdgeMap, i: int, j: int)
      requires Valid()
      ensures Mapped(dim, f).Edge(i, j) == (if 0 <= i < |vertex| && j in vertex[i] then f(i, j, vertex[i][j]) else [])
    {
      if 0 <= i < |vertex| && j in vertex[i] {
        assert ValidEdge(i, j);
      }
    }

    /** Mapping with valid, fitting lists gives a valid, fitting graph. */
    lemma MappedValid(dim: nat, f: EdgeMap, n: nat)
      requires Valid()
      requires forall i: nat, j: int :: i < |vertex| && j in vertex[i] ==> AllValid(f(i, j, vertex[i][j]))
      requires forall i: nat, j: int, k: nat ::
                 i < |vertex| && j in vertex[i] && k < |f(i, j, vertex[i][j])| && f(i, j, vertex[i][j])[k].IsData() ==>
                   |f(i, j, vertex[i][j])[k].lbounds| == n
      ensures Mapped(dim, f).Valid() && Mapped(dim, f).Fits(n)
    {
      var g := Mapped(dim, f);
      forall i: nat, j: int | i < |g.vertex| && j in g.vertex[i]
        ensures g.ValidEdge(i, j)
      {
        assert ValidEdge(i, j);
      }
      forall i: int, j: int, k: int | 0 <= k < |g.Edge(i, j)| && g.Edge(i, j)[k].IsData()
        ensures |g.Edge(i, j)[k].lbounds| == |g.Edge(i, j)[k].ubounds| == n
      {
        MappedEdge(dim, f, i, j);
      }
    }

    lemma BuiltStart(dim: nat, f: EdgeMap)
      ensures Built(dim, f, 0, 0) == Emptied(dim)
    {
      if |vertex| > 0 {
        assert MappedRow(f, 0, 0) == map[];
      }
      assert Built(dim, f, 0, 0).vertex == Emptied(dim).vertex;
    }

    lemma BuiltNextRow(dim: nat, f: EdgeMap, i: nat)
      requires i < |vertex|
      ensures Built(dim, f, i, |vertex|) == Built(dim, f, i + 1, 0)
    {
      if i + 1 < |vertex| {
        assert MappedRow(f, i + 1, 0) == map[];
      }
      assert Built(dim, f, i, |vertex|).vertex == Built(dim, f, i + 1, 0).vertex;
    }

    lemma BuiltNextEdge(dim: nat, f: EdgeMap, i: nat, j: nat)
      requires i < |vertex| && j < |vertex|
      ensures Built(dim, f, i, j + 1) ==
              if j in vertex[i] then Built(dim, f, i, j).Connect(i, j, f(i, j, vertex[i][j])) else Built(dim, f, i, j)
    {
      var a, b := Built(dim, f, i, j), Built(dim, f, i, j + 1);
      if j in vertex[i] {
        var c := a.Connect(i, j, f(i, j, vertex[i][j]));
        assert a.vertex[i] == MappedRow(f, i, j) && a.Edge(i, j) == [];
        var e := f(i, j, vertex[i][j]);
        assert [] + e == e;
        assert b.vertex[i] == MappedRow(f, i, j + 1);
        assert c.vertex[i] == if e == [] then MappedRow(f, i, j) else MappedRow(f, i, j)[j := e];
        assert b.vertex[i] == c.vertex[i];
        assert b.vertex == c.vertex;
      } else {
        assert a.vertex[i] == b.vertex[i];
        assert a.vertex == b.vertex;
      }
    }

    // ---------- Updating edge lists in place ----------

    function Replace(i: nat, j: int, e: seq<DependenceVector>): DependenceGraph
      requires i < |vertex| && j in vertex[i]
    {
      this.(vertex := vertex[i := vertex[i][j := e]])
    }

    ghost function Updated(f: EdgeMap): DependenceGraph {
      DependenceGraph(numDim, seq(|vertex|, a requires 0 <= a < |vertex| =>
        map b | b in vertex[a] :: f(a, b, vertex[a][b])))
    }

    lemma UpdatedEdge(f: EdgeMap, i: int, j: int)
      ensures Updated(f).Edge(i, j) == if 0 <= i < |vertex| && j in vertex[i] then f(i, j, vertex[i][j]) else []
    {
    }

    lemma UpdatedValid(f: EdgeMap, n: nat)
      requires Valid()
      requires forall i: nat, j: int :: i < |vertex| && j in vertex[i] ==>
               f(i, j, vertex[i][j]) != [] && AllFit(f(i, j, vertex[i][j]), n)
      ensures Updated(f).Valid() && Updated(f).Fits(n)
    {
      var g := Updated(f);
      forall i: nat, j: int | i < |g.vertex| && j in g.vertex[i]
        ensures g.ValidEdge(i, j)
      {
        assert ValidEdge(i, j);
      }
      forall i: int, j: int, k: int | 0 <= k < |g.Edge(i, j)| && g.Edge(i, j)[k].IsData()
        ensures |g.Edge(i, j)[k].lbounds| == |g.Edge(i, j)[k].ubounds| == n
      {
        UpdatedEdge(f, i, j);
        assert AllFit(g.Edge(i, j), n);
      }
    }

    /** g is this graph with f applied to the edges that are done. */
    ghost predicate PartlyUpdated(g: DependenceGraph, f: EdgeMap, done: (int, int) -> bool) {
      && g.numDim == numDim && |g.vertex| == |vertex|
      && forall a :: 0 <= a < |vertex| ==> IsUpdatedRow(g.vertex[a], a, f, done)
    }

    ghost predicate IsUpdatedRow(row: EdgeList, a: nat, f: EdgeMap, done: (int, int) -> bool)
      requires a < |vertex|
    {
      && row.Keys == vertex[a].Keys
      && forall b :: b in vertex[a] ==> row[b] == if done(a, b) then f(a, b, vertex[a][b]) else vertex[a][b]
    }

    lemma UpdateEdge(g: DependenceGraph, f: EdgeMap, done: (int, int) -> bool, i: nat, j: int, next: (int, int) -> bool)
      requires PartlyUpdated(g, f, done)
      requires i < |vertex| && j in vertex[i]
      requires forall a, b :: next(a, b) == (done(a, b) || (a == i && b == j))
      ensures j in g.vertex[i] && PartlyUpdated(g.Replace(i, j, f(i, j, vertex[i][j])), f, next)
    {
      assert IsUpdatedRow(g.vertex[i], i, f, done);
      var h := g.Replace(i, j, f(i, j, vertex[i][j]));
      forall a | 0 <= a < |vertex|
        ensures IsUpdatedRow(h.vertex[a], a, f, next)
      {
        assert IsUpdatedRow(g.vertex[a], a, f, done);
      }
    }

    lemma SameProgress(g: DependenceGraph, f: EdgeMap, done: (int, int) -> bool, next: (int, int) -> bool)
      requires PartlyUpdated(g, f, done)
      requires forall a: int, b: int :: 0 <= a < |vertex| && b in vertex[a] && done(a, b) != next(a, b) ==>
               f(a, b, vertex[a][b]) == vertex[a][b]
      ensures PartlyUpdated(g, f, next)
    {
      forall a | 0 <= a < |vertex|
        ensures IsUpdatedRow(g.vertex[a], a, f, next)
      {
        assert IsUpdatedRow(g.vertex[a], a, f, done);
      }
    }

    lemma AllUpdated(g: DependenceGraph, f: EdgeMap, done: (int, int) -> bool)
      requires PartlyUpdated(g, f, done)
      requires forall a: int, b: int :: 0 <= a < |vertex| && b in vertex[a] && !done(a, b) ==>
               f(a, b, vertex[a][b]) == vertex[a][b]
      ensures g == Updated(f)
    {
      forall a | 0 <= a < |vertex|
        ensures g.vertex[a] == Updated(f).vertex[a]
      {
        assert IsUpdatedRow(g.vertex[a], a, f, done);
        var row := Updated(f).vertex[a];
        assert g.vertex[a].Keys == row.Keys;
        assert forall b :: b in row ==> g.vertex[a][b] == row[b];
      }
      assert g.vertex == Updated(f).vertex;
    }

    /** Connecting lists one after the other is connecting their concatenation. */
    lemma ConnectTwice(i: nat, j: nat, e: seq<DependenceVector>, e': seq<DependenceVector>)
      requires i < |vertex|
      ensures Connect(i, j, e).Connect(i, j, e') == Connect(i, j, e + e')
    {
      if e == [] {
        assert e + e' == e';
      } else if e' == [] {
        assert e + e' == e;
      } else {
        assert Edge(i, j) + e + e' == Edge(i, j) + (e + e');
        assert vertex[i][j := Edge(i, j) + e][j := Edge(i, j) + e + e'] == vertex[i][j := Edge(i, j) + (e + e')];
        assert Connect(i, j, e).Connect(i, j, e').vertex == Connect(i, j, e + e').vertex;
      }
    }

    // ---------- permute (chill/dep.cc:473-507) ----------

    /** Both ends of the edge are among the permuted statements. */
    static predicate InsideActive(active: set<int>, i: int, j: int) {
      active == {} || (i in active && j in active)
    }

    static ghost function PermutedEdges(pi: seq<int>, active: set<int>): EdgeMap {
      (i: int, j: int, ds: seq<DependenceVector>) =>
        if InsideActive(active, i, j) then PermutedList(ds, pi)
        else if i !in active && j !in active then ds
        else JumbledList(ds, pi)
    }

    /** Exactly one end of the edge is among the permuted statements. */
    static predicate AcrossActive(active: set<int>, i: int, j: int) {
      active != {} && (i in active) != (j in active)
    }

    /** The loops visit edge (a, b) before edge (i, j). */
    static predicate Earlier(a: int, b: int, i: int, j: int) {
      a < i || (a == i && b < j)
    }

    /** A vector on this edge between permuted statements is rejected. */
    ghost predicate RejectedEdge(pi: seq<int>, active: set<int>, i: int, j: int) {
      InsideActive(active, i, j) && ListResult(Edge(i, j), pi).Throw?
    }

    /** Nothing is rejected on the edges visited before this one. */
    ghost predicate Reached(pi: seq<int>, active: set<int>, i: int, j: int) {
      forall a, b :: Earlier(a, b, i, j) ==> !RejectedEdge(pi, active, a, b)
    }

    ghost predicate Rejects(pi: seq<int>, active: set<int>) {
      exists i, j :: RejectedEdge(pi, active, i, j)
    }

    /** The first rejected vector does not have |pi| dimensions. */
    ghost predicate RejectsLength(pi: seq<int>, active: set<int>) {
      exists i, j :: RejectedEdge(pi, active, i, j) && Reached(pi, active, i, j)
        && ListResult(Edge(i, j), pi) == Throw(InvalidArgument)
    }

    ghost function PermuteResult(pi: seq<int>, active: set<int>): Result<DependenceGraph> {
      if RejectsLength(pi, active) then Throw(InvalidArgument)
      else if Rejects(pi, active) then Throw(IrError)
      else Ok(Mapped(0, PermutedEdges(pi, active)))
    }

    /** The dimensions jumbled on the edges visited exist: the C++ writes them without a check. */
    ghost predicate JumblesInBounds(pi: seq<int>, active: set<int>) {
      forall i, j :: AcrossActive(active, i, j) && Reached(pi, active, i, j) ==> Jumbles(Edge(i, j), pi)
    }

    /** The first rejected edge decides which exception it is. */
    lemma FirstRejection(pi: seq<int>, active: set<int>, i: int, j: int)
      requires RejectedEdge(pi, active, i, j) && Reached(pi, active, i, j)
      ensures PermuteResult(pi, active) ==
              Throw(if ListResult(Edge(i, j), pi) == Throw(InvalidArgument) then InvalidArgument else IrError)
    {
      if RejectsLength(pi, active) {
        var a, b :| RejectedEdge(pi, active, a, b) && Reached(pi, active, a, b)
          && ListResult(Edge(a, b), pi) == Throw(InvalidArgument);
        assert !Earlier(a, b, i, j) && !Earlier(i, j, a, b);
      }
    }

    method Permute(pi: seq<int>, active: set<int>) returns (r: Result<DependenceGraph>)
      requires Valid() && InRange(pi, |pi|) && JumblesInBounds(pi, active)
      ensures r == PermuteResult(pi, active)
    {
      ghost var f := PermutedEdges(pi, active);
      var g := Emptied(0);
      BuiltStart(0, f);
      for i := 0 to |vertex|
        invariant g == Built(0, f, i, 0)
        invariant Reached(pi, active, i, 0)
      {
        for j := 0 to |vertex|
          invariant g == Built(0, f, i, j)
          invariant Reached(pi, active, i, j)
        {
          BuiltNextEdge(0, f, i, j);
          EdgeIsValid(i, j);
          if j in vertex[i] {
            var ds := vertex[i][j];
            assert ds == Edge(i, j);
            if InsideActive(active, i, j) {
              var dv := PermuteList(ds, pi);
              if dv.Throw? {
                FirstRejection(pi, active, i, j);
                return Throw(dv.error);
              }
              g := g.Connect(i, j, dv.value);
            } else if i !in active && j !in active {
              g := g.Connect(i, j, ds);
            } else {
              var dv := JumbleList(ds, pi);
              g := g.Connect(i, j, dv);
            }
          }
          NextReached(pi, active, i, j);
        }
        BuiltNextRow(0, f, i);
        RowReached(pi, active, i);
      }
      assert !Rejects(pi, active) by { AllReached(pi, active); }
      return Ok(g);
    }

    lemma NextReached(pi: seq<int>, active: set<int>, i: int, j: int)
      requires Reached(pi, active, i, j) && !RejectedEdge(pi, active, i, j)
      ensures Reached(pi, active, i, j + 1)
    {
    }

    /** There are no edges to or from other numbers. */
    lemma RowReached(pi: seq<int>, active: set<int>, i: int)
      requires Valid() && Reached(pi, active, i, |vertex|)
      ensures Reached(pi, active, i + 1, 0)
    {
      forall a, b | Earlier(a, b, i + 1, 0)
        ensures !RejectedEdge(pi, active, a, b)
      {
        if !Earlier(a, b, i, |vertex|) {
          NoEdge(a, b);
        }
      }
    }

    lemma AllReached(pi: seq<int>, active: set<int>)
      requires Valid() && Reached(pi, active, |vertex|, 0)
      ensures !Rejects(pi, active)
    {
      forall a, b
        ensures !RejectedEdge(pi, active, a, b)
      {
        if a >= |vertex| {
          NoEdge(a, b);
        }
      }
    }

    lemma NoEdge(i: int, j: int)
      requires Valid()
      ensures Edge(i, j) != [] ==> 0 <= i < |vertex| && 0 <= j < |vertex|
    {
      if 0 <= i < |vertex| && j in vertex[i] {
        assert ValidEdge(i, j);
      }
    }

    // ---------- subspace (chill/dep.cc:523-543) ----------

    /** The vectors subspace keeps: all control dependences and the data dependences carried at dim. */
    static ghost function CarriedEdges(dim: int): EdgeMap {
      (i: int, j: int, ds: seq<DependenceVector>) => CarriedList(ds, dim)
    }

    method Subspace(dim: int) returns (g: DependenceGraph)
      requires Valid()
      ensures g == Mapped(0, CarriedEdges(dim))
    {
      ghost var f := CarriedEdges(dim);
      g := Emptied(0);
      BuiltStart(0, f);
      for i := 0 to |vertex|
        invariant g == Built(0, f, i, 0)
      {
        for j := 0 to |vertex|
          invariant g == Built(0, f, i, j)
        {
          BuiltNextEdge(0, f, i, j);
          if j in vertex[i] {
            EdgeIsValid(i, j);
            var ds := vertex[i][j];
            assert ds == Edge(i, j);
            var kept := KeepCarried(ds, dim);
            g := g.Connect(i, j, kept);
          }
        }
        BuiltNextRow(0, f, i);
      }
    }
  }

  // ---------- Lists of vectors ----------

  /** All data vectors of the list have n dimensions. */
  ghost predicate AllFit(ds: seq<DependenceVector>, n: nat) {
    forall m :: 0 <= m < |ds| ==> ds[m].Valid() && (ds[m].IsData() ==> |ds[m].lbounds| == n)
  }

  /** All vectors of the list have n dimensions. */
  ghost predicate AllOfLength(ds: seq<DependenceVector>, n: nat) {
    forall m :: 0 <= m < |ds| ==> ds[m].Valid() && |ds[m].lbounds| == n
  }

  /** What permute makes of one vector. */
  ghost function VectorResult(d: DependenceVector, pi: seq<int>): Result<seq<DependenceVector>> {
    if d.Valid() && InRange(pi, |pi|) then d.PermuteResult(pi) else Throw(InvalidArgument)
  }

  ghost function PiecesOf(pi: seq<int>): DependenceVector -> Result<seq<DependenceVector>> {
    (d: DependenceVector) => VectorResult(d, pi)
  }

  ghost function ListResult(ds: seq<DependenceVector>, pi: seq<int>): Result<seq<DependenceVector>> {
    FlatMap(ds, PiecesOf(pi), |ds|)
  }

  ghost function PermutedList(ds: seq<DependenceVector>, pi: seq<int>): (es: seq<DependenceVector>) {
    ListResult(ds, pi).GetOr([])
  }

  method PermuteVector(d: DependenceVector, pi: seq<int>) returns (r: Result<seq<DependenceVector>>)
    requires d.Valid() && InRange(pi, |pi|)
    ensures r == VectorResult(d, pi)
    ensures r.Throw? ==> r.error == InvalidArgument || r.error == IrError
  {
    r := d.Permute(pi);
  }

  /** The innermost loop of permute; its pieces are connected together, see ConnectTwice. */
  method PermuteList(ds: seq<DependenceVector>, pi: seq<int>) returns (r: Result<seq<DependenceVector>>)
    requires AllValid(ds) && InRange(pi, |pi|)
    ensures r == ListResult(ds, pi)
    ensures r.Throw? ==> r.error == InvalidArgument || r.error == IrError
  {
    var all := [];
    ghost var f := PiecesOf(pi);
    for k := 0 to |ds|
      invariant FlatMap(ds, f, k) == Ok(all)
    {
      var dv := PermuteVector(ds[k], pi);
      FlatMapNext(ds, f, k, dv);
      if dv.Throw? {
        FlatMapStays(ds, f, k + 1, |ds|);
        return Throw(dv.error);
      }
      all := all + dv.value;
    }
    return Ok(all);
  }

  /** Distances in a moved dimension become unknown. */
  function Jumbled(d: DependenceVector, pi: seq<int>): (e: DependenceVector) {
    d.(lbounds := seq(|d.lbounds|, k requires 0 <= k < |d.lbounds| =>
         if k < |pi| && pi[k] != k then NegInf else d.lbounds[k]),
       ubounds := seq(|d.ubounds|, k requires 0 <= k < |d.ubounds| =>
         if k < |pi| && pi[k] != k then PosInf else d.ubounds[k]))
  }

  function JumbledList(ds: seq<DependenceVector>, pi: seq<int>): (es: seq<DependenceVector>)
    ensures |es| == |ds| && forall k :: 0 <= k < |ds| ==> es[k] == Jumbled(ds[k], pi)
  {
    seq(|ds|, k requires 0 <= k < |ds| => Jumbled(ds[k], pi))
  }

  /** Every dimension pi moves is one of the vectors' dimensions. */
  ghost predicate Jumbles(ds: seq<DependenceVector>, pi: seq<int>) {
    forall k, d :: 0 <= k < |ds| && 0 <= d < |pi| && pi[d] != d ==> d < |ds[k].lbounds|
  }

  method JumbleVector(dv: DependenceVector, pi: seq<int>) returns (d: DependenceVector)
    requires |dv.lbounds| == |dv.ubounds| && forall k :: 0 <= k < |pi| && pi[k] != k ==> k < |dv.lbounds|
    ensures d == Jumbled(dv, pi)
  {
    d := dv;
    var n := |dv.lbounds|;
    for dim := 0 to |pi|
      invariant |d.lbounds| == |d.ubounds| == n && d.SameLabel(dv)
      invariant forall m :: 0 <= m < n ==> d.lbounds[m] == (if m < dim && pi[m] != m then NegInf else dv.lbounds[m])
      invariant forall m :: 0 <= m < n ==> d.ubounds[m] == (if m < dim && pi[m] != m then PosInf else dv.ubounds[m])
    {
      if pi[dim] != dim {
        d := d.(lbounds := d.lbounds[dim := NegInf]);
        d := d.(ubounds := d.ubounds[dim := PosInf]);
      }
    }
    assert d.lbounds == Jumbled(dv, pi).lbounds && d.ubounds == Jumbled(dv, pi).ubounds;
  }

  method JumbleList(ds: seq<DependenceVector>, pi: seq<int>) returns (dv: seq<DependenceVector>)
    requires AllValid(ds) && Jumbles(ds, pi)
    ensures dv == JumbledList(ds, pi)
  {
    dv := ds;
    for k := 0 to |ds|
      invariant |dv| == |ds|
      invariant forall m :: 0 <= m < k ==> dv[m] == Jumbled(ds[m], pi)
      invariant forall m :: k <= m < |ds| ==> dv[m] == ds[m]
    {
      var d := JumbleVector(dv[k], pi);
      dv := dv[k := d];
    }
  }

  ghost predicate Keeps(d: DependenceVector, dim: int) {
    d.kind == Control || (|d.lbounds| == |d.ubounds| && d.CarriedWithin(dim, PosInf))
  }

  ghost function CarriedList(ds: seq<DependenceVector>, dim: int): (es: seq<DependenceVector>) {
    Filter(ds, d => Keeps(d, dim), |ds|)
  }

  /** The innermost loop of subspace. */
  method KeepCarried(ds: seq<DependenceVector>, dim: int) returns (kept: seq<DependenceVector>)
    requires AllValid(ds)
    ensures kept == CarriedList(ds, dim)
  {
    kept := [];
    ghost var p := (d: DependenceVector) => Keeps(d, dim);
    for k := 0 to |ds|
      invariant kept == Filter(ds, p, k)
    {
      if ds[k].kind != Control {
        var carried := ds[k].IsCarried(dim, PosInf);
        if carried.value {
          kept := kept + [ds[k]];
        }
      } else {
        kept := kept + [ds[k]];
      }
    }
  }

  // ---------- What the graph operations mean ----------

  /** An ordinary dependence that the permutation would turn around. */
  ghost predicate Violates(d: DependenceVector, pi: seq<int>)
    requires d.Valid() && InRange(pi, |d.lbounds|)
  {
    !d.quasi && !d.scalar && d.Permuted(pi).HasLexNegative()
  }

  /** permute throws on the vector: it has the wrong length or would be turned around. */
  ghost predicate Rejected(d: DependenceVector, pi: seq<int>)
    requires d.Valid() && InRange(pi, |pi|)
  {
    |d.lbounds| != |pi| || Violates(d, pi)
  }

  lemma VectorResultMeaning(d: DependenceVector, pi: seq<int>)
    requires d.Valid() && InRange(pi, |pi|)
    ensures VectorResult(d, pi).Throw? <==> Rejected(d, pi)
    ensures Rejected(d, pi) ==> VectorResult(d, pi) == Throw(if |d.lbounds| != |pi| then InvalidArgument else IrError)
    ensures VectorResult(d, pi).Ok? ==> d.Permuted(pi).IsSplit(VectorResult(d, pi).value)
  {
    if |d.lbounds| == |pi| {
      d.Permuted(pi).PiecesFromSplit(0);
    }
  }

  /** Vector k of the list is the first one permute rejects. */
  ghost predicate FirstRejected(ds: seq<DependenceVector>, pi: seq<int>, k: nat)
    requires AllValid(ds) && InRange(pi, |pi|)
  {
    k < |ds| && Rejected(ds[k], pi) && forall m :: 0 <= m < k ==> !Rejected(ds[m], pi)
  }

  lemma {:induction false} ListPrefixResult(ds: seq<DependenceVector>, pi: seq<int>, k: nat)
    requires AllValid(ds) && InRange(pi, |pi|) && k <= |ds|
    requires forall m :: 0 <= m < k ==> !Rejected(ds[m], pi)
    ensures FlatMap(ds, PiecesOf(pi), k).Ok?
  {
    FlatMapThrows(ds, PiecesOf(pi), k);
    forall m | 0 <= m < k
      ensures VectorResult(ds[m], pi).Ok?
    {
      VectorResultMeaning(ds[m], pi);
    }
  }

  /** The first rejected vector of a list decides the exception. */
  lemma ListResultError(ds: seq<DependenceVector>, pi: seq<int>, k: nat)
    requires AllValid(ds) && InRange(pi, |pi|) && FirstRejected(ds, pi, k)
    ensures ListResult(ds, pi) == Throw(if |ds[k].lbounds| != |pi| then InvalidArgument else IrError)
  {
    var r := VectorResult(ds[k], pi);
    assert r == Throw(if |ds[k].lbounds| != |pi| then InvalidArgument else IrError) by {
      VectorResultMeaning(ds[k], pi);
    }
    ListPrefixResult(ds, pi, k);
    FlatMapStops(ds, PiecesOf(pi), k, r);
  }

  lemma {:induction false} SomeFirstRejected(ds: seq<DependenceVector>, pi: seq<int>, m: nat) returns (k: nat)
    requires AllValid(ds) && InRange(pi, |pi|) && m < |ds| && Rejected(ds[m], pi)
    ensures k <= m && FirstRejected(ds, pi, k)
  {
    if l: nat :| l < m && Rejected(ds[l], pi) {
      k := SomeFirstRejected(ds, pi, l);
    } else {
      k := m;
    }
  }

  lemma ListResultThrows(ds: seq<DependenceVector>, pi: seq<int>)
    requires AllValid(ds) && InRange(pi, |pi|)
    ensures ListResult(ds, pi).Throw? <==> exists m :: 0 <= m < |ds| && Rejected(ds[m], pi)
    ensures ListResult(ds, pi) == Throw(InvalidArgument) <==>
            exists k: nat :: FirstRejected(ds, pi, k) && |ds[k].lbounds| != |pi|
  {
    if m: nat :| m < |ds| && Rejected(ds[m], pi) {
      var k := SomeFirstRejected(ds, pi, m);
      ListResultError(ds, pi, k);
      assert forall l: nat :: FirstRejected(ds, pi, l) ==> l == k;
    } else {
      ListPrefixResult(ds, pi, |ds|);
    }
  }

  /** w is a permuted distance of one of the vectors. */
  ghost predicate PermutedContains(ds: seq<DependenceVector>, pi: seq<int>, w: seq<int>)
    requires AllOfLength(ds, |pi|) && InRange(pi, |pi|)
  {
    exists m :: 0 <= m < |ds| && ds[m].Permuted(pi).Contains(w)
  }

  /** Every vector of the result is a piece of one of the permuted vectors. */
  lemma ListPieceSource(ds: seq<DependenceVector>, pi: seq<int>, e: DependenceVector) returns (m: nat)
    requires AllOfLength(ds, |pi|) && InRange(pi, |pi|)
    requires ListResult(ds, pi).Ok? && e in ListResult(ds, pi).value
    ensures m < |ds| && e.Valid()
    ensures forall w :: e.Contains(w) ==> ds[m].Permuted(pi).Contains(w)
  {
    var f := PiecesOf(pi);
    FlatMapMembers(ds, f, |ds|, e);
    m :| 0 <= m < |ds| && f(ds[m]).Ok? && e in f(ds[m]).value;
    VectorResultMeaning(ds[m], pi);
    forall w | e.Contains(w)
      ensures ds[m].Permuted(pi).Contains(w)
    {
      assert AnyContains(VectorResult(ds[m], pi).value, w);
    }
  }

  /** Every permuted distance of a vector is in one of the pieces. */
  lemma ListPieceFor(ds: seq<DependenceVector>, pi: seq<int>, m: nat, w: seq<int>) returns (e: DependenceVector)
    requires AllOfLength(ds, |pi|) && InRange(pi, |pi|)
    requires ListResult(ds, pi).Ok? && m < |ds| && ds[m].Permuted(pi).Contains(w)
    ensures e in ListResult(ds, pi).value && e.Valid() && e.Contains(w)
  {
    var f := PiecesOf(pi);
    FlatMapThrows(ds, f, |ds|);
    assert f(ds[m]).Ok?;
    VectorResultMeaning(ds[m], pi);
    var pieces := VectorResult(ds[m], pi).value;
    assert AnyContains(pieces, w);
    var k :| 0 <= k < |pieces| && pieces[k].Contains(w);
    e := pieces[k];
    FlatMapMembers(ds, f, |ds|, e);
  }

  lemma ListResultMeaning(ds: seq<DependenceVector>, pi: seq<int>, w: seq<int>)
    requires AllOfLength(ds, |pi|) && InRange(pi, |pi|)
    requires ListResult(ds, pi).Ok?
    ensures AllValid(ListResult(ds, pi).value)
    ensures AnyContains(ListResult(ds, pi).value, w) <==> PermutedContains(ds, pi, w)
  {
    var es := ListResult(ds, pi).value;
    forall k | 0 <= k < |es|
      ensures es[k].Valid() && (es[k].Contains(w) ==> PermutedContains(ds, pi, w))
    {
      var m := ListPieceSource(ds, pi, es[k]);
    }
    if PermutedContains(ds, pi, w) {
      var m :| 0 <= m < |ds| && ds[m].Permuted(pi).Contains(w);
      var e := ListPieceFor(ds, pi, m, w);
    }
  }

  ghost predicate SomeRejected(ds: seq<DependenceVector>, pi: seq<int>) {
    AllValid(ds) && InRange(pi, |pi|) && exists m :: 0 <= m < |ds| && Rejected(ds[m], pi)
  }

  /** The first rejected vector of the list does not have |pi| dimensions. */
  ghost predicate LengthRejectedFirst(ds: seq<DependenceVector>, pi: seq<int>) {
    AllValid(ds) && InRange(pi, |pi|) && exists k: nat :: FirstRejected(ds, pi, k) && |ds[k].lbounds| != |pi|
  }

  /** No vector on an edge visited before (i, j) is rejected. */
  ghost predicate NothingRejectedBefore(g: DependenceGraph, pi: seq<int>, active: set<int>, i: int, j: int) {
    forall a, b :: DependenceGraph.Earlier(a, b, i, j) && DependenceGraph.InsideActive(active, a, b) ==>
      !SomeRejected(g.Edge(a, b), pi)
  }

  /**
   DependenceGraph::permute throws exactly when a vector between permuted statements
   has the wrong number of dimensions or is an ordinary one that is turned around.
   The first such vector decides: invalid_argument for its length, otherwise ir_error.
   */
  lemma GraphPermuteRejects(g: DependenceGraph, pi: seq<int>, active: set<int>)
    requires g.Valid() && InRange(pi, |pi|)
    ensures g.PermuteResult(pi, active).Throw? <==>
            exists i, j :: DependenceGraph.InsideActive(active, i, j) && SomeRejected(g.Edge(i, j), pi)
    ensures g.PermuteResult(pi, active) == Throw(InvalidArgument) <==>
            exists i, j :: DependenceGraph.InsideActive(active, i, j) && LengthRejectedFirst(g.Edge(i, j), pi)
                           && NothingRejectedBefore(g, pi, active, i, j)
  {
    forall i, j
      ensures g.RejectedEdge(pi, active, i, j) <==>
              DependenceGraph.InsideActive(active, i, j) && SomeRejected(g.Edge(i, j), pi)
      ensures LengthRejectedFirst(g.Edge(i, j), pi) <==> ListResult(g.Edge(i, j), pi) == Throw(InvalidArgument)
    {
      g.EdgeIsValid(i, j);
      ListResultThrows(g.Edge(i, j), pi);
    }
    forall i, j
      ensures g.Reached(pi, active, i, j) <==> NothingRejectedBefore(g, pi, active, i, j)
    {
    }
  }

  /**
   The control vectors the program makes have no dimensions; one between permuted
   statements stops every permutation, with invalid_argument when no vector before it
   is rejected.
   */
  lemma ControlVectorStops(g: DependenceGraph, pi: seq<int>, active: set<int>, i: int, j: int, k: nat)
    requires g.Valid() && InRange(pi, |pi|) && pi != []
    requires DependenceGraph.InsideActive(active, i, j) && k < |g.Edge(i, j)| && |g.Edge(i, j)[k].lbounds| == 0
    ensures g.PermuteResult(pi, active).Throw?
    ensures NothingRejectedBefore(g, pi, active, i, j) && !SomeRejected(g.Edge(i, j)[..k], pi) ==>
              g.PermuteResult(pi, active) == Throw(InvalidArgument)
  {
    var ds := g.Edge(i, j);
    GraphPermuteRejects(g, pi, active);
    g.EdgeIsValid(i, j);
    assert Rejected(ds[k], pi);
    if NothingRejectedBefore(g, pi, active, i, j) && !SomeRejected(ds[..k], pi) {
      assert forall m :: 0 <= m < k ==> ds[..k][m] == ds[m];
      assert FirstRejected(ds, pi, k);
      assert LengthRejectedFirst(ds, pi);
    }
  }

  /** Between permuted statements the graph gets exactly the permuted distances. */
  lemma GraphPermuteInside(g: DependenceGraph, pi: seq<int>, active: set<int>, i: int, j: int)
    requires g.Valid() && InRange(pi, |pi|)
    requires g.PermuteResult(pi, active).Ok? && DependenceGraph.InsideActive(active, i, j)
    ensures var ds, es := g.Edge(i, j), g.PermuteResult(pi, active).value.Edge(i, j);
            && AllOfLength(ds, |pi|) && AllValid(es)
            && forall w :: AnyContains(es, w) <==> PermutedContains(ds, pi, w)
  {
    var ds, es := g.Edge(i, j), g.PermuteResult(pi, active).value.Edge(i, j);
    g.EdgeIsValid(i, j);
    g.MappedEdge(0, DependenceGraph.PermutedEdges(pi, active), i, j);
    assert es == PermutedList(ds, pi);
    assert !g.RejectedEdge(pi, active, i, j);
    ListResultThrows(ds, pi);
    ListResultMeaning(ds, pi, []);
    forall w
      ensures AnyContains(es, w) <==> PermutedContains(ds, pi, w)
    {
      ListResultMeaning(ds, pi, w);
    }
  }

  /** w agrees with the box of d in the dimensions pi leaves in place. */
  ghost predicate StaysWithin(d: DependenceVector, pi: seq<int>, w: seq<int>)
    requires d.Valid()
  {
    |w| == |d.lbounds| && forall k :: 0 <= k < |w| && (k < |pi| ==> pi[k] == k) ==>
      Within(d.lbounds[k], d.ubounds[k], w[k])
  }

  /** A jumbled vector holds every distance that agrees with the old box in the dimensions that stay in place. */
  lemma JumbledMeaning(d: DependenceVector, pi: seq<int>, w: seq<int>)
    requires d.Valid()
    ensures Jumbled(d, pi).Valid()
    ensures Jumbled(d, pi).Contains(w) <==> StaysWithin(d, pi, w)
  {
    var e := Jumbled(d, pi);
    if |w| == |d.lbounds| {
      assert forall k :: 0 <= k < |w| ==>
                           (Within(e.lbounds[k], e.ubounds[k], w[k]) <==>
                             ((k < |pi| ==> pi[k] == k) ==> Within(d.lbounds[k], d.ubounds[k], w[k])));
    }
  }

  ghost predicate SomeStaysWithin(ds: seq<DependenceVector>, pi: seq<int>, w: seq<int>)
    requires AllValid(ds)
  {
    exists m :: 0 <= m < |ds| && StaysWithin(ds[m], pi, w)
  }

  lemma JumbledListMeaning(ds: seq<DependenceVector>, pi: seq<int>, w: seq<int>)
    requires AllValid(ds)
    ensures AllValid(JumbledList(ds, pi))
    ensures AnyContains(JumbledList(ds, pi), w) <==> SomeStaysWithin(ds, pi, w)
  {
    var es := JumbledList(ds, pi);
    forall k | 0 <= k < |ds|
      ensures es[k].Valid() && (es[k].Contains(w) <==> StaysWithin(ds[k], pi, w))
    {
      JumbledMeaning(ds[k], pi, w);
    }
  }

  /**
   Edges with one permuted end get every distance an old vector admits in the dimensions
   that stay; other edges keep theirs.
   */
  lemma GraphPermuteOutside(g: DependenceGraph, pi: seq<int>, active: set<int>, i: int, j: int, w: seq<int>)
    requires g.Valid() && g.PermuteResult(pi, active).Ok? && !DependenceGraph.InsideActive(active, i, j)
    ensures var ds, es := g.Edge(i, j), g.PermuteResult(pi, active).value.Edge(i, j);
            && AllValid(ds) && AllValid(es)
            && (DependenceGraph.AcrossActive(active, i, j) ==> (AnyContains(es, w) <==> SomeStaysWithin(ds, pi, w)))
            && (!DependenceGraph.AcrossActive(active, i, j) ==> (AnyContains(es, w) <==> AnyContains(ds, w)))
  {
    g.EdgeIsValid(i, j);
    g.MappedEdge(0, DependenceGraph.PermutedEdges(pi, active), i, j);
    JumbledListMeaning(g.Edge(i, j), pi, w);
  }

  /** A vector survives subspace exactly when it is a control dependence or a member has nothing before dim. */
  lemma SubspaceKeepsCarried(ds: seq<DependenceVector>, dim: int, d: DependenceVector)
    requires AllValid(ds)
    ensures d in CarriedList(ds, dim) <==>
            d in ds && (d.kind == Control || exists v :: d.Contains(v) && ZeroUpTo(v, d.ClampedDim(dim)))
  {
    FilterMembers(ds, e => Keeps(e, dim), |ds|, d);
    if d in ds {
      d.CarriedMember(dim, PosInf);
    }
  }

  /** Keeping what is carried at a and then what is carried at b keeps what is carried at the larger. */
  lemma CarriedTwice(ds: seq<DependenceVector>, a: nat, b: nat)
    requires AllValid(ds)
    ensures AllValid(CarriedList(ds, a))
    ensures CarriedList(CarriedList(ds, a), b) == CarriedList(ds, if a < b then b else a)
  {
    var c := if a < b then b else a;
    forall m | 0 <= m < |ds|
      ensures Keeps(ds[m], c) == (Keeps(ds[m], a) && Keeps(ds[m], b))
    {
    }
    FilterTwice(ds, d => Keeps(d, a), d => Keeps(d, b), d => Keeps(d, c), |ds|);
    forall d | d in CarriedList(ds, a)
      ensures d.Valid()
    {
      FilterMembers(ds, e => Keeps(e, a), |ds|, d);
    }
  }

  /** subspace(a) followed by subspace(b) is subspace(max(a, b)). */
  lemma SubspaceTwice(g: DependenceGraph, a: nat, b: nat)
    requires g.Valid()
    ensures var g' := g.Mapped(0, DependenceGraph.CarriedEdges(a));
            && g'.Valid()
            && g'.Mapped(0, DependenceGraph.CarriedEdges(b)) ==
              g.Mapped(0, DependenceGraph.CarriedEdges(if a < b then b else a))
  {
    var fa, fb, fm := DependenceGraph.CarriedEdges(a), DependenceGraph.CarriedEdges(b),
      DependenceGraph.CarriedEdges(if a < b then b else a);
    var g' := g.Mapped(0, fa);
    forall i: nat, j: int | i < |g.vertex| && j in g.vertex[i]
      ensures 0 <= j < |g.vertex| && AllValid(fa(i, j, g.vertex[i][j]))
      ensures CarriedList(fa(i, j, g.vertex[i][j]), b) == fm(i, j, g.vertex[i][j])
    {
      assert g.ValidEdge(i, j);
      CarriedTwice(g.vertex[i][j], a, b);
    }
    forall i: nat, j: int | i < |g'.vertex| && j in g'.vertex[i]
      ensures g'.ValidEdge(i, j)
    {
    }
    var l, r := g'.Mapped(0, fb), g.Mapped(0, fm);
    forall i: nat | i < |g.vertex|
      ensures l.vertex[i] == r.vertex[i]
    {
      var x, y := g'.MappedRow(fb, i, |g.vertex|), g.MappedRow(fm, i, |g.vertex|);
      forall j
        ensures j in x <==> j in y
        ensures j in x ==> x[j] == y[j]
      {
        if j in g.vertex[i] && j !in g'.vertex[i] {
          assert fa(i, j, g.vertex[i][j]) == [];
        }
      }
      assert x == y;
    }
    assert l.vertex == r.vertex;
  }
}
