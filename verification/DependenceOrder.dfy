/**
 is_dependence_valid (chill/irtools.cc:189-224): a walk over parent links and a
 scan of lower bounds, exact for the order in which the control tree executes.
 */
module DependenceOrder {
  import opened Bounds
  import opened Lexicographic
  import opened DependenceVectors
  import opened Execution
  import opened SourceTrees
  import opened IrNodes
  import opened TreeOrder

  // ---------- The scan ----------

  /** d is one of the distances of dv over the outermost loops. */
  ghost predicate OuterDistance(dv: DependenceVector, d: seq<int>)
    requires dv.Valid() && |d| <= |dv.lbounds|
  {
    forall k :: 0 <= k < |d| ==> Within(dv.lbounds[k], dv.ubounds[k], d[k])
  }

  /** Every distance over the c outermost loops points forwards, or is zero and the text breaks the tie. */
  ghost predicate AllForward(dv: DependenceVector, c: nat, before: bool)
    requires dv.Valid() && c <= |dv.lbounds|
  {
    forall d :: |d| == c && OuterDistance(dv, d) ==> LexPositive(d) || (IsZero(d) && before)
  }

  /** A distance over c loops with a zero prefix of length i followed by x. */
  lemma OuterWitness(dv: DependenceVector, c: nat, i: nat, x: int) returns (d: seq<int>)
    requires dv.Valid() && i < c <= |dv.lbounds| && dv.MayBeZeroUpTo(i) && Within(dv.lbounds[i], dv.ubounds[i], x)
    ensures |d| == c && OuterDistance(dv, d) && ZeroUpTo(d, i) && d[i] == x
  {
    var v := dv.ZeroPrefixThen(i, x);
    d := v[..c];
  }

  lemma ForwardFrom(dv: DependenceVector, c: nat, i: nat, before: bool)
    requires dv.Valid() && i < c <= |dv.lbounds| && dv.lbounds[i].AboveZero()
    requires forall j :: 0 <= j < i ==> dv.lbounds[j] == ZERO
    ensures AllForward(dv, c, before)
  {
    forall d | |d| == c && OuterDistance(dv, d)
      ensures LexPositive(d)
    {
      assert d[i] > 0;
      var k := FirstNonZero(d);
      assert PositiveAt(d, k);
    }
  }

  lemma BackwardAt(dv: DependenceVector, c: nat, i: nat, before: bool)
    requires dv.Valid() && i < c <= |dv.lbounds| && dv.lbounds[i].BelowZero()
    requires forall j :: 0 <= j < i ==> dv.lbounds[j] == ZERO
    ensures !AllForward(dv, c, before)
  {
    var d := OuterWitness(dv, c, i, if dv.ubounds[i].BelowZero() then dv.ubounds[i].v else -1);
    assert NegativeAt(d, i);
    Trichotomy(d);
  }

  lemma TieDecides(dv: DependenceVector, c: nat, before: bool)
    requires dv.Valid() && c <= |dv.lbounds| && forall j :: 0 <= j < c ==> dv.lbounds[j] == ZERO
    ensures AllForward(dv, c, before) <==> before
  {
    var zero := seq(c, (i: int) => 0);
    assert OuterDistance(dv, zero) && IsZero(zero);
    Trichotomy(zero);
    forall d | |d| == c && OuterDistance(dv, d)
      ensures LexPositive(d) || IsZero(d)
    {
      if !IsZero(d) {
        assert PositiveAt(d, FirstNonZero(d));
      }
    }
  }

  method ScanLowerBounds(dv: DependenceVector, lastDim: int, before: bool) returns (r: bool)
    requires dv.Valid() && -1 <= lastDim < |dv.lbounds|
    ensures r <==> AllForward(dv, lastDim + 1, before)
  {
    for i := 0 to lastDim + 1
      invariant forall j :: 0 <= j < i ==> dv.lbounds[j] == ZERO
    {
      if dv.lbounds[i].AboveZero() {
        ForwardFrom(dv, lastDim + 1, i, before);
        return true;
      } else if dv.lbounds[i].BelowZero() {
        BackwardAt(dv, lastDim + 1, i, before);
        return false;
      }
    }
    TieDecides(dv, lastDim + 1, before);
    return before;
  }

  // ---------- Exactness against execution ----------

  /** Instances whose common iterations differ by one of dv's distances. */
  ghost predicate Related(dv: DependenceVector, c: nat, u: seq<int>, w: seq<int>)
    requires dv.Valid() && c <= |dv.lbounds| && c <= |u| && c <= |w|
  {
    OuterDistance(dv, Difference(w[..c], u[..c]))
  }

  /**
   d runs before e; if their statements come in this order in the text, or are the same,
   it is enough that e does not run before d.
   */
  ghost predicate Respected(run: seq<Instance>, d: Instance, e: Instance, before: bool) {
    if before then !Precedes(run, e, d) else Precedes(run, d, e)
  }

  // A source statement, a destination statement, and the dependence from one to the other.
  datatype Query = Query(ts: seq<Tree>, p: seq<nat>, q: seq<nat>, dv: DependenceVector, before: bool) {
    ghost predicate Valid() {
      && Paired(ts) && Address(ts, p) && Address(ts, q) && dv.Valid()
      && CommonLoops(ts, p, q) <= |dv.lbounds|
      && (p != q ==> before == LexicallyBefore(p, q))
    }

    ghost function Loops(): nat
      requires Valid()
    {
      CommonLoops(ts, p, q)
    }

    /** A forward run with a pair of instances at one of the distances. */
    ghost predicate Occurs(env: Env, u: seq<int>, w: seq<int>)
      requires Valid()
    {
      && Forward(env) && |u| == Depth(ts, p) && |w| == Depth(ts, q)
      && Instance(p, u) in WholeRun(ts, env) && Instance(q, w) in WholeRun(ts, env)
      && Loops() <= |u| && Loops() <= |w| && Related(dv, Loops(), u, w)
    }

    /** In every run, every pair at one of the distances runs in the order of the dependence. */
    ghost predicate AlwaysRespected()
      requires Valid()
    {
      forall env, u, w :: Occurs(env, u, w) ==> Respected(WholeRun(ts, env), Instance(p, u), Instance(q, w), before)
    }

    /** One pair of instances: what the run does is what its common distance says. */
    lemma PairRespectedIff(env: Env, u: seq<int>, w: seq<int>)
      requires Valid() && Occurs(env, u, w)
      ensures var d := Difference(w[..Loops()], u[..Loops()]);
              Respected(WholeRun(ts, env), Instance(p, u), Instance(q, w), before) <==>
                LexPositive(d) || (IsZero(d) && before)
    {
      var c := Loops();
      var a, b, d := Instance(p, u), Instance(q, w), Difference(w[..c], u[..c]);
      PrecedesIff(ts, env, a, b);
      PrecedesIff(ts, env, b, a);
      RunsBeforeIff(ts, p, u, q, w);
      RunsBeforeIff(ts, q, w, p, u);
      CommonLoopsSymmetric(ts, p, q);
      TextOrderTotal(ts, p, q);
      ZeroDifference(u[..c], w[..c]);
    }

    /**
     The source comes later in the text, the two statements are in opposite arms of
     one if, and no lower end decides: only pairs of one iteration would be turned
     around, and in one iteration only one arm runs.
     */
    ghost predicate TiesAcrossArms()
      requires Valid()
    {
      OppositeArms(ts, p, q) && !before && forall j :: 0 <= j < Loops() ==> dv.lbounds[j] == ZERO
    }

    /** The distance can occur: it is not zero between opposite arms of one if. */
    ghost predicate Possible(d: seq<int>)
      requires Valid() && |d| == Loops()
    {
      OppositeArms(ts, p, q) ==> !IsZero(d)
    }

    /**
     The box test over the common loops says whether execution respects the
     dependence, except that it rejects ties across arms, which never run.
     */
    lemma AllForwardIff()
      requires Valid()
      ensures AllForward(dv, Loops(), before) <==> AlwaysRespected() && !TiesAcrossArms()
      ensures TiesAcrossArms() ==> AlwaysRespected()
    {
      if AllForward(dv, Loops(), before) {
        forall env, u, w | Occurs(env, u, w)
          ensures Respected(WholeRun(ts, env), Instance(p, u), Instance(q, w), before)
        {
          PairRespectedIff(env, u, w);
        }
      }
      if TiesAcrossArms() {
        TieDecides(dv, Loops(), before);
        forall env, u, w | Occurs(env, u, w)
          ensures Respected(WholeRun(ts, env), Instance(p, u), Instance(q, w), before)
        {
          NoTieOccurs(env, u, w);
        }
      } else if !AllForward(dv, Loops(), before) {
        var d := PossibleBackward();
        var env, u, w := Realized(d);
        PairRespectedIff(env, u, w);
      }
    }

    /** When no lower end is below zero, a pair that runs across arms is forward. */
    lemma NoTieOccurs(env: Env, u: seq<int>, w: seq<int>)
      requires Valid() && TiesAcrossArms() && Occurs(env, u, w)
      ensures Respected(WholeRun(ts, env), Instance(p, u), Instance(q, w), before)
    {
      var c := Loops();
      var d := Difference(w[..c], u[..c]);
      OccursIsPossible(env, u, w);
      var k := FirstNonZero(d);
      assert Within(dv.lbounds[k], dv.ubounds[k], d[k]);
      assert PositiveAt(d, k);
      PairRespectedIff(env, u, w);
    }

    lemma OccursIsPossible(env: Env, u: seq<int>, w: seq<int>)
      requires Valid() && Occurs(env, u, w)
      ensures Possible(Difference(w[..Loops()], u[..Loops()]))
    {
      RunsIff(ts, p, u, env);
      RunsIff(ts, q, w, env);
      ZeroDifference(u[..Loops()], w[..Loops()]);
      if OppositeArms(ts, p, q) && u[..Loops()] == w[..Loops()] {
        ArmsExclude(ts, p, u, q, w, [], [], env);
      }
    }

    /** If the box test fails and there is no tie across arms, some possible distance is backward. */
    lemma PossibleBackward() returns (d: seq<int>)
      requires Valid() && !AllForward(dv, Loops(), before) && !TiesAcrossArms()
      ensures |d| == Loops() && OuterDistance(dv, d) && Possible(d) && !(LexPositive(d) || (IsZero(d) && before))
    {
      var c := Loops();
      d :| |d| == c && OuterDistance(dv, d) && !(LexPositive(d) || (IsZero(d) && before));
      if !Possible(d) {
        var j :| 0 <= j < c && dv.lbounds[j] != ZERO;
        assert forall i :: 0 <= i < c ==> Within(dv.lbounds[i], dv.ubounds[i], 0) by {
          assert forall i :: 0 <= i < c ==> d[i] == 0;
        }
        d := OuterWitness(dv, c, j, -1);
        assert NegativeAt(d, j);
        Trichotomy(d);
      }
    }

    /** Every possible distance over the common loops occurs in some run. */
    lemma Realized(d: seq<int>) returns (env: Env, u: seq<int>, w: seq<int>)
      requires Valid() && |d| == Loops() && OuterDistance(dv, d) && Possible(d)
      ensures Occurs(env, u, w) && Difference(w[..Loops()], u[..Loops()]) == d
    {
      CommonLoopsBound(ts, p, q);
      var n := Largest(d);
      u := seq(Depth(ts, p), (i: int) => 0);
      w := d + seq(Depth(ts, q) - |d|, (i: int) => 0);
      assert Difference(w[..Loops()], u[..Loops()]) == d;
      ZeroDifference(u[..Loops()], w[..Loops()]);
      env := EnvFor(n, Instance(p, u), Instance(q, w));
      BothRun(ts, p, u, q, w, n);
    }
  }

  /** Two instances that do not need opposite arms in one iteration occur together in some run. */
  lemma BothRun(ts: seq<Tree>, p: seq<nat>, u: seq<int>, q: seq<nat>, w: seq<int>, n: nat)
    requires Paired(ts) && Together(ts, p, u, q, w) && WithinReach(u, n) && WithinReach(w, n)
    ensures var env := EnvFor(n, Instance(p, u), Instance(q, w));
            Instance(p, u) in WholeRun(ts, env) && Instance(q, w) in WholeRun(ts, env)
  {
    var d, e := Instance(p, u), Instance(q, w);
    var env := EnvFor(n, d, e);
    assert p[0..] == p && u[0..] == u && q[0..] == q && w[0..] == w;
    assert [] + p == p && [] + u == u && [] + q == q && [] + w == w;
    OppositeArmsSymmetric(ts, p, q);
    CommonLoopsSymmetric(ts, p, q);
    EnvExecutes(ts, p, u, [], [], n, d, e, env);
    EnvExecutes(ts, q, w, [], [], n, e, d, env);
    RunsIff(ts, p, u, env);
    RunsIff(ts, q, w, env);
  }

  /**
   The test rejects a dependence no run violates: at distance 1 from a loop in the
   else-part of an if back to a loop in its then-part.
   */
  lemma TieAcrossArmsRejected(block: Control, loop: Control, c: Control, kind: DependenceType)
    requires block.Block? && loop.Loop? && c.If?
    ensures var nest := Tree(loop, 0, [Tree(block, -1, [])]);
            var dv := DependenceVector(kind, [ONE], [ONE], false, false);
            var query := Query([Tree(c, 1, [nest]), Tree(c, 0, [nest])], [1, 0, 0], [0, 0, 0], dv, false);
            query.Valid() && query.AlwaysRespected() && !AllForward(query.dv, query.Loops(), false)
  {
    var leaf := Tree(block, -1, []);
    var nest := Tree(loop, 0, [leaf]);
    var ts, p, q := [Tree(c, 1, [nest]), Tree(c, 0, [nest])], [1, 0, 0], [0, 0, 0];
    assert p[1..] == q[1..] == [0, 0] && [0, 0][1..] == [0];
    assert Address([leaf], [0]) && Address([nest], [0, 0]) && Address(ts, p) && Address(ts, q);
    assert Paired([]) && PairedAt([leaf], 0) && Paired([leaf]) && PairedAt([nest], 0) && Paired([nest]);
    assert PairedAt(ts, 0) && PairedAt(ts, 1);
    var query := Query(ts, p, q, DependenceVector(kind, [ONE], [ONE], false, false), false);
    assert ArmsAt(ts, 0, 1);
    query.AllForwardIff();
  }

  lemma {:induction false} CommonLoopsSymmetric(ts: seq<Tree>, p: seq<nat>, q: seq<nat>)
    requires Address(ts, p) && Address(ts, q)
    ensures CommonLoops(ts, p, q) == CommonLoops(ts, q, p)
    decreases |p|
  {
    if |p| > 1 && |q| > 1 && p[0] == q[0] {
      CommonLoopsSymmetric(ts[p[0]].children, p[1..], q[1..]);
    }
  }

  /** The reversed difference has the opposite sign, and is zero only between equal vectors. */
  lemma ZeroDifference(u: seq<int>, w: seq<int>)
    requires |u| == |w|
    ensures var d := Difference(w, u);
            && (IsZero(d) <==> u == w)
            && (LexBefore(u, w) <==> LexPositive(d))
            && (LexBefore(w, u) <==> LexNegative(d))
            && (LexPositive(d) || LexNegative(d) || IsZero(d))
            && !(LexPositive(d) && LexNegative(d))
            && (IsZero(d) ==> !LexPositive(d) && !LexNegative(d))
  {
    var d, e := Difference(w, u), Difference(u, w);
    Trichotomy(d);
    if LexPositive(e) {
      var k: nat :| PositiveAt(e, k);
      assert NegativeAt(d, k);
    }
    if LexNegative(d) {
      var k: nat :| NegativeAt(d, k);
      assert PositiveAt(e, k);
    }
    if IsZero(d) {
      assert forall i :: 0 <= i < |u| ==> d[i] == 0;
    }
  }

  ghost function Largest(d: seq<int>): (n: nat)
    ensures forall i :: 0 <= i < |d| ==> 0 <= d[i] + n <= 2 * n
  {
    if d == [] then 0
    else
      var m, x := Largest(d[..|d| - 1]), d[|d| - 1];
      var a := if x < 0 then -x else x;
      assert forall i :: 0 <= i < |d| - 1 ==> d[i] == d[..|d| - 1][i];
      if a > m then a else m
  }

  // ---------- The walk over parent links ----------

  /** Some node of the forest, reached by child positions. */
  ghost predicate Inside(ts: seq<Tree>, path: seq<nat>)
    decreases |path|
  {
    path != [] && path[0] < |ts| && (|path| > 1 ==> Inside(ts[path[0]].children, path[1..]))
  }

  lemma {:induction false} AddressInside(ts: seq<Tree>, path: seq<nat>)
    requires Address(ts, path)
    ensures Inside(ts, path)
    decreases |path|
  {
    if |path| > 1 {
      AddressInside(ts[path[0]].children, path[1..]);
    }
  }

  /** The nodes from the root down to the one at path. */
  ghost function Line(ns: seq<IrNode>, p: IrNode?, ts: seq<Tree>, path: seq<nat>): (line: seq<IrNode>)
    requires AreTrees(ns, p, ts) && Inside(ts, path)
    reads (set n | n in ns), Footprint(ns)
    ensures |line| == |path|
    decreases |path|
  {
    EachTree(ns, p, ts);
    RootsInFootprint(ns, p, ts);
    MemberFootprint(ns, path[0]);
    var n := ns[path[0]];
    if |path| == 1 then [n] else [n] + Line(n.children, n, ts[path[0]].children, path[1..])
  }

  /** The tree at the k-th step of path. */
  ghost function TreeAt(ts: seq<Tree>, path: seq<nat>, k: nat): Tree
    requires Inside(ts, path) && k < |path|
    decreases |path|
  {
    if k == 0 then ts[path[0]] else TreeAt(ts[path[0]].children, path[1..], k - 1)
  }

  /** A line is linked by parent fields and shows the trees along the path. */
  lemma {:induction false} LineLinks(ns: seq<IrNode>, p: IrNode?, ts: seq<Tree>, path: seq<nat>, k: nat)
    requires AreTrees(ns, p, ts) && Inside(ts, path) && k < |path|
    ensures var line := Line(ns, p, ts, path);
            && line[k].parent == (if k == 0 then p else line[k - 1])
            && line[k].content == TreeAt(ts, path, k).content
            && line[k].payload == TreeAt(ts, path, k).payload
            && line[k] in Footprint(ns)
    decreases |path|
  {
    EachTree(ns, p, ts);
    RootsInFootprint(ns, p, ts);
    MemberFootprint(ns, path[0]);
    if k > 0 {
      var n := ns[path[0]];
      LineLinks(n.children, n, ts[path[0]].children, path[1..], k - 1);
    }
  }

  lemma PrefixFront(path: seq<nat>, i: nat)
    requires i < |path|
    ensures path[..i + 1] == [path[0]] + path[1..][..i]
  {
  }

  /** Two lines meet in a node exactly where their paths agree. */
  lemma {:induction false} LinesMeet(ns: seq<IrNode>, p: IrNode?, ts: seq<Tree>, path: seq<nat>, other: seq<nat>,
                                     i: nat, j: nat)
    requires AreTrees(ns, p, ts) && Inside(ts, path) && Inside(ts, other) && i < |path| && j < |other|
    ensures Line(ns, p, ts, path)[i] == Line(ns, p, ts, other)[j] <==> i == j && path[..i + 1] == other[..i + 1]
    decreases |path|
  {
    EachTree(ns, p, ts);
    RootsInFootprint(ns, p, ts);
    var n, m := ns[path[0]], ns[other[0]];
    LineInRoot(ns, p, ts, path, i);
    LineInRoot(ns, p, ts, other, j);
    if path[0] != other[0] {
      if path[0] < other[0] {
        assert n.repr !! m.repr;
      } else {
        assert m.repr !! n.repr;
      }
      assert path[..i + 1][0] == path[0] && other[..j + 1][0] == other[0];
    } else if i > 0 && j > 0 {
      LinesMeet(n.children, n, ts[path[0]].children, path[1..], other[1..], i - 1, j - 1);
      PrefixFront(path, i);
      PrefixFront(other, j);
    } else {
      PrefixFront(path, 0);
      PrefixFront(other, 0);
    }
  }

  /** Below its root, a line stays in the root's footprint without the root itself. */
  lemma LineInRoot(ns: seq<IrNode>, p: IrNode?, ts: seq<Tree>, path: seq<nat>, i: nat)
    requires AreTrees(ns, p, ts) && Inside(ts, path) && i < |path|
    ensures var n := ns[path[0]];
            Line(ns, p, ts, path)[i] in n.repr && (Line(ns, p, ts, path)[i] == n <==> i == 0)
  {
    EachTree(ns, p, ts);
    var n := ns[path[0]];
    if i > 0 {
      LineLinks(n.children, n, ts[path[0]].children, path[1..], i - 1);
    }
  }

  // ---------- Loop dimensions ----------

  /** Loop payloads are 0, 1, 2, ... from the root down: the dimensions buildIS assigns. */
  ghost predicate Numbered(ts: seq<Tree>, level: nat)
    decreases ts
  {
    forall i :: 0 <= i < |ts| ==> NumberedTree(ts[i], level)
  }

  ghost predicate NumberedTree(t: Tree, level: nat)
    decreases t
  {
    (t.content.Loop? ==> t.payload == level) && Numbered(t.children, level + LoopCount(t))
  }

  /** Loops among the first k nodes of path. */
  ghost function LoopsAbove(ts: seq<Tree>, path: seq<nat>, k: nat): nat
    requires Inside(ts, path) && k <= |path|
  {
    if k == 0 then 0 else LoopsAbove(ts, path, k - 1) + LoopCount(TreeAt(ts, path, k - 1))
  }

  lemma {:induction false} LoopsAboveFront(ts: seq<Tree>, path: seq<nat>, k: nat)
    requires Inside(ts, path) && 0 < k <= |path| && |path| > 1
    ensures LoopsAbove(ts, path, k) == LoopCount(ts[path[0]]) + LoopsAbove(ts[path[0]].children, path[1..], k - 1)
  {
    if k > 1 {
      LoopsAboveFront(ts, path, k - 1);
    } else {
      assert LoopsAbove(ts, path, 0) == 0;
    }
  }

  lemma {:induction false} LoopsAboveGrows(ts: seq<Tree>, path: seq<nat>, j: nat, k: nat)
    requires Inside(ts, path) && j <= k <= |path|
    ensures LoopsAbove(ts, path, j) <= LoopsAbove(ts, path, k)
  {
    if j < k {
      LoopsAboveGrows(ts, path, j, k - 1);
    }
  }

  lemma {:induction false} NumberedAt(ts: seq<Tree>, level: nat, path: seq<nat>, k: nat)
    requires Numbered(ts, level) && Inside(ts, path) && k < |path| && TreeAt(ts, path, k).content.Loop?
    ensures TreeAt(ts, path, k).payload == level + LoopsAbove(ts, path, k)
    decreases |path|
  {
    assert NumberedTree(ts[path[0]], level);
    if k > 0 {
      LoopsAboveFront(ts, path, k);
      NumberedAt(ts[path[0]].children, level + LoopCount(ts[path[0]]), path[1..], k - 1);
    }
  }

  /** Number of nodes that are proper ancestors of both ends. */
  ghost function Shared(p: seq<nat>, q: seq<nat>): (m: nat)
    ensures p != [] && q != [] ==> m < |p| && m < |q|
  {
    if |p| > 1 && |q| > 1 && p[0] == q[0] then 1 + Shared(p[1..], q[1..]) else 0
  }

  lemma {:induction false} SharedPrefix(p: seq<nat>, q: seq<nat>, k: nat)
    requires k + 1 < |p| && k + 1 < |q|
    ensures p[..k + 1] == q[..k + 1] <==> k < Shared(p, q)
  {
    if p[0] == q[0] {
      assert p[..k + 1] == [p[0]] + p[1..][..k] && q[..k + 1] == [q[0]] + q[1..][..k];
      if k > 0 {
        SharedPrefix(p[1..], q[1..], k - 1);
      }
    } else {
      assert p[..k + 1][0] != q[..k + 1][0];
    }
  }

  lemma {:induction false} CommonLoopsShared(ts: seq<Tree>, p: seq<nat>, q: seq<nat>)
    requires Address(ts, p) && Address(ts, q)
    ensures Inside(ts, q) && CommonLoops(ts, p, q) == LoopsAbove(ts, q, Shared(p, q))
    decreases |p|
  {
    AddressInside(ts, q);
    if |p| > 1 && |q| > 1 && p[0] == q[0] {
      CommonLoopsShared(ts[p[0]].children, p[1..], q[1..]);
      LoopsAboveFront(ts, q, Shared(p, q));
    }
  }

  // ---------- The method ----------

  /** node is the node of the forest at path. */
  ghost predicate NodeAt(roots: seq<IrNode>, ts: seq<Tree>, path: seq<nat>, node: IrNode)
    requires AreTrees(roots, null, ts)
    reads (set n | n in roots), Footprint(roots)
  {
    Inside(ts, path) && node == Line(roots, null, ts, path)[|path| - 1]
  }

  /** Allocating objects does not touch the forest. */
  lemma Settled(roots: seq<IrNode>, ts: seq<Tree>)
    requires AreTrees(roots, null, ts)
    ensures forall n :: n in roots ==> n in Footprint(roots)
    ensures forall n :: n in Footprint(roots) ==> allocated(n)
  {
    RootsInFootprint(roots, null, ts);
    FootprintAllocated(roots);
  }

  /** The loop nodes among entries k.. of a line, its last entry excluded. */
  ghost function LoopNodes(line: seq<IrNode>, k: nat): set<IrNode>
  {
    set j | k <= j < |line| - 1 && line[j].content.Loop? :: line[j]
  }

  /** The loops around a node, found by walking up. */
  method CollectLoops(node: IrNode, ghost roots: seq<IrNode>, ghost ts: seq<Tree>, ghost path: seq<nat>)
    returns (loopNodes: set<IrNode>)
    requires AreTrees(roots, null, ts) && NodeAt(roots, ts, path, node)
    ensures loopNodes == old(LoopNodes(Line(roots, null, ts, path), 0))
  {
    Settled(roots, ts);
    ghost var line := Line(roots, null, ts, path);
    ghost var k := |path| - 1;
    loopNodes := {};
    var itn := node;
    LineLinks(roots, null, ts, path, k);
    while itn.parent != null
      invariant 0 <= k < |path| && itn == line[k] && itn.parent == if k == 0 then null else line[k - 1]
      invariant loopNodes == LoopNodes(line, k)
      decreases k
    {
      itn, k := itn.parent, k - 1;
      LineLinks(roots, null, ts, path, k);
      if itn.content.Loop? {
        loopNodes := loopNodes + {itn};
      }
    }
  }

  /** A node above dst is a loop around src exactly when it is a loop among the shared ancestors. */
  lemma SharedLoop(roots: seq<IrNode>, ts: seq<Tree>, p: seq<nat>, q: seq<nat>, j: nat)
    requires AreTrees(roots, null, ts) && Inside(ts, p) && Inside(ts, q) && j + 1 < |q|
    ensures Line(roots, null, ts, q)[j] in LoopNodes(Line(roots, null, ts, p), 0) <==>
            j < Shared(p, q) && TreeAt(ts, q, j).content.Loop?
  {
    var a, b := Line(roots, null, ts, p), Line(roots, null, ts, q);
    LineLinks(roots, null, ts, q, j);
    forall i | 0 <= i < |p| - 1
      ensures a[i] == b[j] <==> i == j && j < Shared(p, q)
    {
      LinesMeet(roots, null, ts, p, q, i, j);
      if i == j {
        SharedPrefix(p, q, j);
      }
    }
    if b[j] in LoopNodes(a, 0) {
      var i :| 0 <= i < |a| - 1 && a[i].content.Loop? && a[i] == b[j];
    }
    if j < Shared(p, q) && TreeAt(ts, q, j).content.Loop? {
      assert a[j] == b[j];
    }
  }

  /** Dimension of the innermost shared loop among entries k.. of q, or -1. */
  ghost function LastDim(ts: seq<Tree>, p: seq<nat>, q: seq<nat>, k: nat): int
    requires Inside(ts, q) && p != [] && k <= |q|
  {
    var c := LoopsAbove(ts, q, Shared(p, q));
    if k < Shared(p, q) && LoopsAbove(ts, q, k) < c then c - 1 else -1
  }

  /** Walking one node up updates the last dimension as the loop does. */
  lemma LastDimNext(roots: seq<IrNode>, ts: seq<Tree>, p: seq<nat>, q: seq<nat>, k: nat)
    requires AreTrees(roots, null, ts) && Inside(ts, p) && Inside(ts, q) && Numbered(ts, 0) && 0 < k < |q|
    ensures var n, last := Line(roots, null, ts, q)[k - 1], LastDim(ts, p, q, k);
            LastDim(ts, p, q, k - 1) ==
            if n.content.Loop? && n in LoopNodes(Line(roots, null, ts, p), 0) && n.payload > last then n.payload
            else last
  {
    var j := k - 1;
    LineLinks(roots, null, ts, q, j);
    SharedLoop(roots, ts, p, q, j);
    if j < Shared(p, q) {
      LoopsAboveGrows(ts, q, k, Shared(p, q));
      if TreeAt(ts, q, j).content.Loop? {
        NumberedAt(ts, 0, q, j);
      }
    }
  }

  /** The dimension of the innermost loop around both nodes, found by walking up from dst. */
  method InnermostShared(dst: IrNode, loopNodes: set<IrNode>, ghost roots: seq<IrNode>, ghost ts: seq<Tree>,
                         ghost p: seq<nat>, ghost q: seq<nat>)
    returns (lastDim: int)
    requires AreTrees(roots, null, ts) && Inside(ts, p) && NodeAt(roots, ts, q, dst) && Numbered(ts, 0)
    requires loopNodes == LoopNodes(Line(roots, null, ts, p), 0)
    ensures lastDim == LastDim(ts, p, q, 0)
  {
    Settled(roots, ts);
    ghost var line, k := Line(roots, null, ts, q), |q| - 1;
    lastDim := -1;
    var itn := dst;
    LineLinks(roots, null, ts, q, k);
    while itn.parent != null
      invariant 0 <= k < |q| && itn == line[k] && itn.parent == if k == 0 then null else line[k - 1]
      invariant lastDim == LastDim(ts, p, q, k)
      decreases k
    {
      LastDimNext(roots, ts, p, q, k);
      itn, k := itn.parent, k - 1;
      LineLinks(roots, null, ts, q, k);
      if itn.content.Loop? && itn in loopNodes && itn.payload > lastDim {
        lastDim := itn.payload;
      }
    }
  }

  /**
   A scalar dependence is always accepted; any other is accepted exactly when in
   every run the two instances of every pair at one of its distances run in order,
   except for ties across the arms of one if, which are rejected although they
   never run.
   */
  method IsDependenceValid(src: IrNode, dst: IrNode, dv: DependenceVector, before: bool,
                           ghost roots: seq<IrNode>, ghost query: Query)
    returns (r: bool)
    requires AreTrees(roots, null, query.ts) && Numbered(query.ts, 0)
    requires query.Valid() && query.dv == dv && query.before == before
    requires NodeAt(roots, query.ts, query.p, src) && NodeAt(roots, query.ts, query.q, dst)
    ensures r <==> dv.scalar || (query.AlwaysRespected() && !query.TiesAcrossArms())
  {
    Settled(roots, query.ts);
    if !dv.scalar {
      var loopNodes := CollectLoops(src, roots, query.ts, query.p);
      var lastDim := InnermostShared(dst, loopNodes, roots, query.ts, query.p, query.q);
      CommonLoopsShared(query.ts, query.p, query.q);
      assert lastDim + 1 == query.Loops();
      query.AllForwardIff();
      r := ScanLowerBounds(dv, lastDim, before);
    } else {
      r := true;
    }
  }
}
