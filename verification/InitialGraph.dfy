/**
 The graph a nest starts with (chill/loop.cc:1296-1343): every vector found
 between two statements is entered in the direction is_dependence_valid accepts,
 reversed if it rejects it. Which pairs of instances that covers, and that they
 stay covered through every run of transformations.
 */
module InitialGraph {
  import opened Bounds
  import opened Lexicographic
  import opened DependenceVectors
  import opened RelationVectors
  import opened DependenceGraphs
  import opened Execution
  import opened LoopSafety
  import opened SourceTrees
  import opened IrNodes
  import opened TreeOrder
  import opened DependenceOrder

  // ---------- Distances over all dimensions ----------

  /** The iterations of a statement under fewer than n loops. */
  function Padded(u: seq<int>, n: nat): (x: seq<int>)
    requires |u| <= n
    ensures |x| == n && forall k :: 0 <= k < n ==> x[k] == if k < |u| then u[k] else 0
  {
    u + seq(n - |u|, _ => 0)
  }

  function FullDistance(u: seq<int>, w: seq<int>, n: nat): (v: seq<int>)
    requires |u| <= n && |w| <= n
    ensures |v| == n
  {
    Difference(Padded(w, n), Padded(u, n))
  }

  /** A data vector with a component for every loop around its statements. */
  ghost predicate Proper(q: Query) {
    && q.Valid() && q.dv.IsData()
    && Depth(q.ts, q.p) <= |q.dv.lbounds| && Depth(q.ts, q.q) <= |q.dv.lbounds|
  }

  /** Two instances of one run whose distance, over all dimensions, is in the box. */
  ghost predicate Pair(q: Query, env: Env, u: seq<int>, w: seq<int>)
    requires Proper(q)
  {
    q.Occurs(env, u, w) && q.dv.Contains(FullDistance(u, w, |q.dv.lbounds|))
  }

  /** The vector is zero where neither statement has a loop, and not zero between opposite arms. */
  ghost predicate Reachable(q: Query, v: seq<int>)
    requires Proper(q) && |v| == |q.dv.lbounds|
  {
    && (forall k :: 0 <= k < |v| && Depth(q.ts, q.p) <= k && Depth(q.ts, q.q) <= k ==> v[k] == 0)
    && q.Possible(v[..q.Loops()])
  }

  lemma PairIsReachable(q: Query, env: Env, u: seq<int>, w: seq<int>)
    requires Proper(q) && Pair(q, env, u, w)
    ensures Reachable(q, FullDistance(u, w, |q.dv.lbounds|))
    ensures FullDistance(u, w, |q.dv.lbounds|)[..q.Loops()] == Difference(w[..q.Loops()], u[..q.Loops()])
  {
    q.OccursIsPossible(env, u, w);
  }

  /** Iterations of a and b loops, c of them common, at distance v. */
  lemma Split(v: seq<int>, a: nat, b: nat, c: nat) returns (u: seq<int>, w: seq<int>)
    requires c <= a <= |v| && c <= b <= |v| && forall k :: 0 <= k < |v| && a <= k && b <= k ==> v[k] == 0
    ensures |u| == a && |w| == b && FullDistance(u, w, |v|) == v
    ensures Difference(w[..c], u[..c]) == v[..c]
    ensures WithinReach(u, Largest(v)) && WithinReach(w, Largest(v))
  {
    u := seq(a, k requires 0 <= k < a => if k < b then 0 else -v[k]);
    w := v[..b];
  }

  /** Every reachable member of the box is the distance of two instances of some run. */
  lemma PairRealized(q: Query, v: seq<int>) returns (env: Env, u: seq<int>, w: seq<int>)
    requires Proper(q) && q.dv.Contains(v) && Reachable(q, v)
    ensures Pair(q, env, u, w) && FullDistance(u, w, |v|) == v
  {
    var c, n := q.Loops(), Largest(v);
    CommonLoopsBound(q.ts, q.p, q.q);
    u, w := Split(v, Depth(q.ts, q.p), Depth(q.ts, q.q), c);
    ZeroDifference(u[..c], w[..c]);
    env := EnvFor(n, Instance(q.p, u), Instance(q.q, w));
    BothRun(q.ts, q.p, u, q.q, w, n);
  }

  // ---------- The order in which a pair runs ----------

  /** The source instance of a pair at distance v runs first. */
  ghost predicate RunsForward(q: Query, v: seq<int>)
    requires Proper(q) && |v| == |q.dv.lbounds|
  {
    var d := v[..q.Loops()];
    LexPositive(d) || (IsZero(d) && LexicallyBefore(q.p, q.q))
  }

  /** The destination instance runs first. */
  ghost predicate RunsBackward(q: Query, v: seq<int>)
    requires Proper(q) && |v| == |q.dv.lbounds|
  {
    var d := v[..q.Loops()];
    LexNegative(d) || (IsZero(d) && LexicallyBefore(q.q, q.p))
  }

  lemma PairOrder(q: Query, env: Env, u: seq<int>, w: seq<int>)
    requires Proper(q) && Pair(q, env, u, w)
    ensures var run, d, e, v := WholeRun(q.ts, env), Instance(q.p, u), Instance(q.q, w),
            FullDistance(u, w, |q.dv.lbounds|);
            && (Precedes(run, d, e) <==> RunsForward(q, v))
            && (Precedes(run, e, d) <==> RunsBackward(q, v))
  {
    var c := q.Loops();
    var d, e := Instance(q.p, u), Instance(q.q, w);
    PairIsReachable(q, env, u, w);
    PrecedesIff(q.ts, env, d, e);
    PrecedesIff(q.ts, env, e, d);
    RunsBeforeIff(q.ts, q.p, u, q.q, w);
    RunsBeforeIff(q.ts, q.q, w, q.p, u);
    CommonLoopsSymmetric(q.ts, q.p, q.q);
    ZeroDifference(u[..c], w[..c]);
  }

  // ---------- Entering one vector (chill/loop.cc:1322-1339) ----------

  /** What is_dependence_valid answers. */
  ghost predicate Accepts(q: Query)
    requires q.Valid()
  {
    q.dv.scalar || AllForward(q.dv, q.Loops(), q.before)
  }

  /** The graph after one vector between statements i and j has been entered. */
  ghost function Entered(g: DependenceGraph, i: nat, j: nat, q: Query): DependenceGraph
    requires q.Valid() && i < |g.vertex| && j < |g.vertex|
  {
    if Accepts(q) then g.Connect(i, j, [q.dv]) else g.Connect(j, i, [q.dv.Reversed()])
  }

  method Enter(g: DependenceGraph, i: nat, j: nat, src: IrNode, dst: IrNode, dv: DependenceVector, before: bool,
               ghost roots: seq<IrNode>, ghost q: Query)
    returns (dep: DependenceGraph)
    requires AreTrees(roots, null, q.ts) && Numbered(q.ts, 0)
    requires q.Valid() && q.dv == dv && q.before == before
    requires NodeAt(roots, q.ts, q.p, src) && NodeAt(roots, q.ts, q.q, dst)
    requires i < |g.vertex| && j < |g.vertex|
    ensures dep == Entered(g, i, j, q)
  {
    q.AllForwardIff();
    var valid := IsDependenceValid(src, dst, dv, before, roots, q);
    if valid {
      dep := g.Connect(i, j, [dv]);
    } else {
      var reversed := dv.Reverse();
      dep := g.Connect(j, i, [reversed]);
    }
  }

  /** The edge along which the pair runs admits its distance. */
  ghost predicate CoveredAsRun(g: DependenceGraph, i: int, j: int, q: Query, env: Env, u: seq<int>, w: seq<int>)
    requires Proper(q) && Pair(q, env, u, w)
  {
    var run, d, e, n := WholeRun(q.ts, env), Instance(q.p, u), Instance(q.q, w), |q.dv.lbounds|;
    && (Precedes(run, d, e) ==> ListAdmits(g.Edge(i, j), FullDistance(u, w, n)))
    && (Precedes(run, e, d) ==> ListAdmits(g.Edge(j, i), FullDistance(w, u, n)))
  }

  /**
   At distance v, the vector is entered in the order the pair runs, or the edge goes both
   ways and so does the box.
   */
  ghost predicate RightWay(q: Query, v: seq<int>)
    requires Proper(q) && |v| == |q.dv.lbounds|
  {
    && (RunsForward(q, v) ==> Accepts(q) || BothWays(q, v))
    && (RunsBackward(q, v) ==> !Accepts(q) || BothWays(q, v))
  }

  ghost predicate BothWays(q: Query, v: seq<int>)
    requires Proper(q)
  {
    q.p == q.q && q.dv.Contains(NegatedVector(v))
  }

  /** Every distance that can occur is entered the right way. */
  ghost predicate AllRightWay(q: Query)
    requires Proper(q)
  {
    forall v :: q.dv.Contains(v) && Reachable(q, v) ==> RightWay(q, v)
  }

  lemma ReversedMeaning(d: DependenceVector)
    requires d.Valid()
    ensures d.Reversed().Valid() && (d.Reversed().IsData() <==> d.IsData())
    ensures forall v :: d.Reversed().Contains(v) <==> d.Contains(NegatedVector(v))
  {
    NegatedBox(d, d.Reversed());
  }

  lemma NegatedTwice(v: seq<int>)
    ensures NegatedVector(NegatedVector(v)) == v
  {
  }

  lemma FullDistanceBack(u: seq<int>, w: seq<int>, n: nat)
    requires |u| <= n && |w| <= n
    ensures FullDistance(w, u, n) == NegatedVector(FullDistance(u, w, n))
  {
  }

  lemma MemberAdmits(ds: seq<DependenceVector>, d: DependenceVector, v: seq<int>)
    requires d in ds && Admits(d, v)
    ensures ListAdmits(ds, v)
  {
    var k :| 0 <= k < |ds| && ds[k] == d;
  }

  /** The vector as entered is somewhere on the edge it was entered on. */
  ghost predicate OnEdge(g: DependenceGraph, i: int, j: int, q: Query)
    requires q.Valid()
  {
    if Accepts(q) then q.dv in g.Edge(i, j) else q.dv.Reversed() in g.Edge(j, i)
  }

  /** A pair entered the right way is covered as it runs. */
  lemma RightWayCovers(g: DependenceGraph, i: int, j: int, q: Query, env: Env, u: seq<int>, w: seq<int>)
    requires Proper(q) && Pair(q, env, u, w) && OnEdge(g, i, j, q) && (q.p == q.q ==> i == j)
    requires RightWay(q, FullDistance(u, w, |q.dv.lbounds|))
    ensures CoveredAsRun(g, i, j, q, env, u, w)
  {
    var n := |q.dv.lbounds|;
    var v, v' := FullDistance(u, w, n), FullDistance(w, u, n);
    PairOrder(q, env, u, w);
    ReversedMeaning(q.dv);
    FullDistanceBack(u, w, n);
    NegatedTwice(v);
    if RunsForward(q, v) {
      if Accepts(q) {
        MemberAdmits(g.Edge(i, j), q.dv, v);
      } else {
        MemberAdmits(g.Edge(i, j), q.dv.Reversed(), v);
      }
    }
    if RunsBackward(q, v) {
      if Accepts(q) {
        MemberAdmits(g.Edge(j, i), q.dv, v');
      } else {
        MemberAdmits(g.Edge(j, i), q.dv.Reversed(), v');
      }
    }
  }

  lemma EnteredEdges(g: DependenceGraph, i: nat, j: nat, q: Query)
    requires q.Valid() && i < |g.vertex| && j < |g.vertex| && g.Edge(i, j) == [] == g.Edge(j, i)
    ensures var h := Entered(g, i, j, q);
            if Accepts(q) then h.Edge(i, j) == [q.dv] && (i != j ==> h.Edge(j, i) == [])
            else h.Edge(j, i) == [q.dv.Reversed()] && (i != j ==> h.Edge(i, j) == [])
  {
    assert [] + [q.dv] == [q.dv] && [] + [q.dv.Reversed()] == [q.dv.Reversed()];
  }

  lemma OnlyAdmits(d: DependenceVector, v: seq<int>)
    requires ListAdmits([d], v)
    ensures Admits(d, v)
  {
  }

  /** Conversely, when nothing else is on the two edges, a covered pair was entered the right way. */
  lemma CoveredIsRightWay(g: DependenceGraph, i: nat, j: nat, q: Query, env: Env, u: seq<int>, w: seq<int>)
    requires Proper(q) && i < |g.vertex| && j < |g.vertex| && (q.p == q.q <==> i == j)
    requires g.Edge(i, j) == [] == g.Edge(j, i)
    requires Pair(q, env, u, w) && CoveredAsRun(Entered(g, i, j, q), i, j, q, env, u, w)
    ensures RightWay(q, FullDistance(u, w, |q.dv.lbounds|))
  {
    var h, n := Entered(g, i, j, q), |q.dv.lbounds|;
    var v := FullDistance(u, w, n);
    PairOrder(q, env, u, w);
    EnteredEdges(g, i, j, q);
    ReversedMeaning(q.dv);
    FullDistanceBack(u, w, n);
    if RunsForward(q, v) && !Accepts(q) {
      OnlyAdmits(q.dv.Reversed(), v);
    }
    if RunsBackward(q, v) && Accepts(q) {
      OnlyAdmits(q.dv, FullDistance(w, u, n));
    }
  }

  /**
   Entering a vector covers, in every run, every pair at one of its distances as it
   runs, exactly when no distance that can occur runs against the direction chosen,
   except on an edge from a statement to itself when the box also has the opposite
   distance.
   */
  lemma EnteredCoversIff(g: DependenceGraph, i: nat, j: nat, q: Query)
    requires Proper(q) && i < |g.vertex| && j < |g.vertex| && (q.p == q.q <==> i == j)
    requires g.Edge(i, j) == [] == g.Edge(j, i)
    ensures (forall env, u, w :: Pair(q, env, u, w) ==> CoveredAsRun(Entered(g, i, j, q), i, j, q, env, u, w)) <==>
            AllRightWay(q)
  {
    var h := Entered(g, i, j, q);
    if AllRightWay(q) {
      forall env, u, w | Pair(q, env, u, w)
        ensures CoveredAsRun(h, i, j, q, env, u, w)
      {
        EnteredEdges(g, i, j, q);
        PairIsReachable(q, env, u, w);
        RightWayCovers(h, i, j, q, env, u, w);
      }
    }
    if forall env, u, w :: Pair(q, env, u, w) ==> CoveredAsRun(h, i, j, q, env, u, w) {
      forall v | q.dv.Contains(v) && Reachable(q, v)
        ensures RightWay(q, v)
      {
        var env, u, w := PairRealized(q, v);
        CoveredIsRightWay(g, i, j, q, env, u, w);
      }
    }
  }

  // ---------- The same condition as a scan ----------

  /** The query about the vector in the direction it was entered. */
  ghost function AsEntered(q: Query): (r: Query)
    requires q.Valid()
    ensures q.p != q.q ==> r.Valid() && r.Loops() == q.Loops()
  {
    if Accepts(q) then q
    else
      ReversedMeaning(q.dv);
      CommonLoopsSymmetric(q.ts, q.p, q.q);
      TextOrderTotal(q.ts, q.p, q.q);
      Query(q.ts, q.q, q.p, q.dv.Reversed(), !q.before)
  }

  /** The box allows zero where neither statement has a loop; otherwise no pair is at one of its distances. */
  ghost predicate SomePair(q: Query)
    requires Proper(q)
  {
    forall k :: 0 <= k < |q.dv.lbounds| && Depth(q.ts, q.p) <= k && Depth(q.ts, q.q) <= k ==>
      Within(q.dv.lbounds[k], q.dv.ubounds[k], 0)
  }

  /** A distance over the common loops that can occur is the beginning of a reachable member. */
  lemma Extended(q: Query, d: seq<int>) returns (v: seq<int>)
    requires Proper(q) && SomePair(q) && |d| == q.Loops() && OuterDistance(q.dv, d) && q.Possible(d)
    ensures q.dv.Contains(v) && Reachable(q, v) && v[..|d|] == d
  {
    CommonLoopsBound(q.ts, q.p, q.q);
    v := d + q.dv.NearestMember()[|d|..];
    assert v[..|d|] == d;
  }

  lemma NegatedSigns(d: seq<int>)
    ensures LexPositive(NegatedVector(d)) <==> LexNegative(d)
    ensures LexNegative(NegatedVector(d)) <==> LexPositive(d)
    ensures IsZero(NegatedVector(d)) <==> IsZero(d)
  {
    var e := NegatedVector(d);
    assert forall k: nat :: PositiveAt(e, k) <==> NegativeAt(d, k);
    assert forall k: nat :: NegativeAt(e, k) <==> PositiveAt(d, k);
    assert IsZero(e) ==> forall k :: 0 <= k < |d| ==> d[k] == -e[k];
  }

  /** Over the common loops, the entered vector has the distance, or its negation. */
  ghost function EnteredDistance(q: Query, d: seq<int>): (e: seq<int>)
    requires q.Valid()
    ensures |e| == |d|
  {
    if Accepts(q) then d else NegatedVector(d)
  }

  /** The box test on the entered vector asks what the direction needs, distance by distance. */
  ghost predicate EnteredForward(q: Query, d: seq<int>)
    requires q.Valid()
  {
    var e := EnteredDistance(q, d);
    LexPositive(e) || (IsZero(e) && AsEntered(q).before)
  }

  lemma RightWayIsForward(q: Query, v: seq<int>)
    requires Proper(q) && q.p != q.q && |v| == |q.dv.lbounds| && Reachable(q, v)
    ensures RightWay(q, v) <==> EnteredForward(q, v[..q.Loops()])
  {
    var d := v[..q.Loops()];
    NegatedSigns(d);
    Trichotomy(d);
    TextOrderTotal(q.ts, q.p, q.q);
  }

  lemma EnteredOuter(q: Query, d: seq<int>)
    requires Proper(q) && q.p != q.q && |d| == q.Loops()
    ensures OuterDistance(AsEntered(q).dv, EnteredDistance(q, d)) <==> OuterDistance(q.dv, d)
    ensures AsEntered(q).Possible(EnteredDistance(q, d)) <==> q.Possible(d)
  {
    var e := EnteredDistance(q, d);
    NegatedSigns(d);
    OppositeArmsSymmetric(q.ts, q.p, q.q);
    if !Accepts(q) {
      var r := q.dv.Reversed();
      assert forall k :: 0 <= k < |d| ==>
             (Within(r.lbounds[k], r.ubounds[k], e[k]) <==> Within(q.dv.lbounds[k], q.dv.ubounds[k], d[k]));
    }
  }

  /** No possible distance is zero across arms, so ties there do not matter. */
  lemma PossibleForward(r: Query, e: seq<int>)
    requires r.Valid() && |e| == r.Loops() && OuterDistance(r.dv, e) && r.Possible(e)
    requires AllForward(r.dv, r.Loops(), r.before) || r.TiesAcrossArms()
    ensures LexPositive(e) || (IsZero(e) && r.before)
  {
    if r.TiesAcrossArms() {
      var k := FirstNonZero(e);
      assert Within(r.dv.lbounds[k], r.dv.ubounds[k], e[k]);
      assert PositiveAt(e, k);
    }
  }

  lemma ReachableAllows(q: Query, v: seq<int>)
    requires Proper(q) && q.dv.Contains(v) && Reachable(q, v)
    ensures SomePair(q)
  {
    assert forall k :: 0 <= k < |v| ==> Within(q.dv.lbounds[k], q.dv.ubounds[k], v[k]);
  }

  /**
   Between two statements the choice of direction is right exactly when the box test
   accepts the vector as it was entered, ties across the arms of one if aside. For a
   rejected vector this is a second call of is_dependence_valid, on the reversed one.
   */
  lemma RightWayByScan(q: Query)
    requires Proper(q) && q.p != q.q
    ensures AllRightWay(q) <==>
            !SomePair(q) || AllForward(AsEntered(q).dv, q.Loops(), AsEntered(q).before) || AsEntered(q).TiesAcrossArms()
  {
    var r := AsEntered(q);
    if AllForward(r.dv, r.Loops(), r.before) || r.TiesAcrossArms() {
      forall v | q.dv.Contains(v) && Reachable(q, v)
        ensures RightWay(q, v)
      {
        var d := v[..q.Loops()];
        EnteredOuter(q, d);
        PossibleForward(r, EnteredDistance(q, d));
        RightWayIsForward(q, v);
      }
    } else if SomePair(q) {
      var e := r.PossibleBackward();
      var d := EnteredDistance(q, e);
      NegatedTwice(e);
      EnteredOuter(q, d);
      var v := Extended(q, d);
      RightWayIsForward(q, v);
    } else {
      forall v: seq<int>
        ensures !(q.dv.Contains(v) && Reachable(q, v))
      {
        if q.dv.Contains(v) && Reachable(q, v) {
          ReachableAllows(q, v);
        }
      }
    }
  }

  // ---------- The vectors the program enters ----------

  /** A vector that leads within the common loops is accepted. */
  lemma LeadsIsAccepted(q: Query, k: nat)
    requires q.Valid() && LeadsAt(q.dv.lbounds, q.dv.ubounds, k) && k < q.Loops()
    ensures AllForward(q.dv, q.Loops(), q.before)
  {
    ForwardFrom(q.dv, q.Loops(), k, q.before);
  }

  /** A vector that leads, and has a pair, leads within the common loops or has only pairs that the text orders. */
  lemma LeadSign(q: Query, v: seq<int>, k: nat)
    requires Proper(q) && LeadsAt(q.dv.lbounds, q.dv.ubounds, k) && q.dv.Contains(v)
    ensures if k < q.Loops() then LexPositive(v[..q.Loops()]) else IsZero(v[..q.Loops()])
  {
    assert forall j :: 0 <= j <= k ==> Within(q.dv.lbounds[j], q.dv.ubounds[j], v[j]);
    if k < q.Loops() {
      assert PositiveAt(v[..q.Loops()], k);
    }
  }

  /** A distance that is zero over the common loops is entered the right way when the direction is the textual one. */
  lemma TieIsRightWay(q: Query, v: seq<int>)
    requires Proper(q) && |v| == |q.dv.lbounds| && IsZero(v[..q.Loops()]) && (q.p != q.q ==> Accepts(q) == q.before)
    ensures RightWay(q, v)
  {
    Trichotomy(v[..q.Loops()]);
    TextOrderTotal(q.ts, q.p, q.q);
  }

  /**
   Vectors of the forms relation2dependences returns are always entered the right
   way, from either list and on edges from a statement to itself as well: the code
   covers every pair it finds.
   */
  lemma ProducedIsRightWay(q: Query, second: bool)
    requires Proper(q) && Produced(q.dv, |q.dv.lbounds|, second)
    ensures AllRightWay(q)
  {
    var c := q.Loops();
    forall v | q.dv.Contains(v) && Reachable(q, v)
      ensures RightWay(q, v)
    {
      if k: nat :| LeadsAt(q.dv.lbounds, q.dv.ubounds, k) {
        LeadSign(q, v, k);
        if k < c {
          LeadsIsAccepted(q, k);
          Trichotomy(v[..c]);
        } else {
          TieDecides(q.dv, c, q.before);
          TieIsRightWay(q, v);
        }
      } else {
        ZeroHoldsZero(q.dv, v);
        TieDecides(q.dv, c, q.before);
        TieIsRightWay(q, v);
      }
    }
  }

  /**
   Of vectors in general this is not true: a rejected box with distances of both
   signs, -1..1 between two statements of one loop, is entered from the second to the
   first only. It is not of a form the program enters.
   */
  lemma BothSignsNotCovered(block: Control, loop: Control)
    requires block.Block? && loop.Loop?
    ensures var leaf := Tree(block, -1, []);
            var q := Query([Tree(loop, 0, [leaf, leaf])], [0, 0], [0, 1],
              DependenceVector(W2R, [MINUS_ONE], [ONE], false, false), true);
            Proper(q) && !Accepts(q) && !AllRightWay(q) && !Leads(q.dv) && !AllZero(q.dv)
  {
    var leaf := Tree(block, -1, []);
    var children := [leaf, leaf];
    var ts, p, o := [Tree(loop, 0, children)], [0, 0], [0, 1];
    var q := Query(ts, p, o, DependenceVector(W2R, [MINUS_ONE], [ONE], false, false), true);
    assert p[1..] == [0] && o[1..] == [1];
    assert Paired([]) && PairedAt(children, 0) && PairedAt(children, 1) && Paired(children) && PairedAt(ts, 0);
    assert LexicallyBefore([0], [1]);
    assert CommonLoops(children, [0], [1]) == 0 && q.Loops() == 1;
    BackwardAt(q.dv, 1, 0, true);
    assert q.dv.Contains([1]) && [1][..1] == [1] && PositiveAt([1], 0);
    Trichotomy([1]);
    assert Reachable(q, [1]) && RunsForward(q, [1]);
  }
}
