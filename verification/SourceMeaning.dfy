/**
 From the references of the source to the memory of the transformed nest: every
 conflict between instances of the source is covered by the initial graph in the
 order in which the source runs it, stays covered through every run of
 transformations, and for one statement a legal run leaves the source's memory.
 */
module SourceMeaning {
  import opened Bounds
  import opened Lexicographic
  import opened DependenceVectors
  import opened RelationVectors
  import opened DataTests
  import opened Execution
  import opened LoopStates
  import opened LoopSafety
  import opened TreeOrder
  import opened DependenceOrder
  import opened InitialGraph
  import opened InitialState
  import LoopMeaning

  // A nest with the array references of every statement and the relations built for pairs of them. In its members, m is
  // what the relations mean, and space the iterations of each statement.
  datatype Source<!R> = Source(
    nest: Nest,
    access: seq<seq<Access>>,
    relation: (nat, nat) -> Relations<R>)
  {
    ghost predicate Valid() {
      nest.Valid() && nest.Found() && |access| == |nest.paths|
    }

    /** Reference k of statement i and reference l of statement j were compared, and their vectors are on the lists. */
    ghost predicate Compared(m: Meaning<R>, i: nat, k: nat, j: nat, l: nat)
      requires Valid() && i <= j < |access| && k < |access[i]| && l < |access[j]|
    {
      CoversPair(nest.tests(i, j).first, nest.tests(i, j).second, relation(i, j), m, access[i][k], access[j][l])
    }

    /** All references of different statements are compared, and those of one statement once in either order. */
    ghost predicate Tested(m: Meaning<R>)
      requires Valid()
    {
      forall i: nat, k: nat, j: nat, l: nat ::
        i <= j < |access| && k < |access[i]| && l < |access[j]| && (i == j ==> k <= l) ==> Compared(m, i, k, j, l)
    }

    /** Two references touch one cell in iterations x and y. */
    predicate Meet(i: nat, k: nat, x: seq<int>, j: nat, l: nat, y: seq<int>)
      requires i < |access| && j < |access| && k < |access[i]| && l < |access[j]|
    {
      access[i][k].cell(x) == access[j][l].cell(y)
    }

    /** Where they meet, they are references to one array, and their relation has the distance. */
    ghost predicate Related(m: Meaning<R>, i: nat, k: nat, x: seq<int>, j: nat, l: nat, y: seq<int>)
      requires Valid() && i < |access| && j < |access| && k < |access[i]| && l < |access[j]| && |x| == |y|
    {
      Meet(i, k, x, j, l, y) ==>
        access[i][k].symbol == access[j][l].symbol
        && Difference(y, x) in m(relation(i, j)(access[i][k], access[j][l]))
    }

    /** The relations have the distance of any two iterations in which references meet. */
    ghost predicate RelationsHold(m: Meaning<R>, space: nat -> iset<seq<int>>)
      requires Valid()
    {
      forall i: nat, k: nat, x: seq<int>, j: nat, l: nat, y: seq<int> ::
        i <= j < |access| && k < |access[i]| && l < |access[j]| && x in space(i) && y in space(j) && |x| == |y| ==>
          Related(m, i, k, x, j, l, y)
    }

    /** References with one place in the text are in one statement, and touch the same cells. */
    ghost predicate Placed()
    {
      forall i: nat, k: nat, j: nat, l: nat ::
        i < |access| && j < |access| && k < |access[i]| && l < |access[j]| && access[i][k].id == access[j][l].id ==>
          i == j && access[i][k].cell == access[j][l].cell
    }

    ghost predicate WellTested(m: Meaning<R>, space: nat -> iset<seq<int>>) {
      Valid() && Tested(m) && RelationsHold(m, space) && Placed()
    }

    /** Instance x of statement i and instance y of statement j touch one cell, and one of them writes it. */
    ghost predicate Conflicting(i: nat, x: seq<int>, j: nat, y: seq<int>)
      requires i < |access| && j < |access|
    {
      exists k: nat, l: nat :: k < |access[i]| && l < |access[j]| && (access[i][k].isWrite || access[j][l].isWrite)
        && Meet(i, k, x, j, l, y)
    }

    lemma ConflictingSymmetric(i: nat, x: seq<int>, j: nat, y: seq<int>)
      requires i < |access| && j < |access| && Conflicting(i, x, j, y)
      ensures Conflicting(j, y, i, x)
    {
      var k: nat, l: nat :| k < |access[i]| && l < |access[j]| && (access[i][k].isWrite || access[j][l].isWrite)
        && Meet(i, k, x, j, l, y);
      assert Meet(j, l, y, i, k, x);
    }

    /** A vector that holds the distance of a conflict was found, in the direction of its sign. */
    lemma ConflictIsFound(m: Meaning<R>, space: nat -> iset<seq<int>>, i: nat, x: seq<int>, j: nat, y: seq<int>)
      requires WellTested(m, space) && i <= j < |access| && x in space(i) && y in space(j) && |x| == |y| == nest.n
      requires Conflicting(i, x, j, y) && (i == j ==> LexPositive(Difference(y, x)))
      ensures var v, t := Difference(y, x), nest.tests(i, j);
              ListHolds(t.first, v) || ListHolds(t.second, NegatedVector(v)) || (i == j && ListHolds(t.second, v))
    {
      var k: nat, l: nat :| k < |access[i]| && l < |access[j]| && (access[i][k].isWrite || access[j][l].isWrite)
        && Meet(i, k, x, j, l, y);
      var v := Difference(y, x);
      Trichotomy(v);
      if i < j || k <= l {
        assert Compared(m, i, k, j, l) && Related(m, i, k, x, j, l, y);
        assert v in m(relation(i, j)(access[i][k], access[j][l]));
      } else {
        SelfConflictIsFound(m, space, i, k, x, l, y);
      }
    }

    /** Two references of one statement are compared in textual order only. */
    lemma SelfConflictIsFound(m: Meaning<R>, space: nat -> iset<seq<int>>, i: nat, k: nat, x: seq<int>, l: nat,
                              y: seq<int>)
      requires WellTested(m, space) && i < |access| && x in space(i) && y in space(i) && |x| == |y| == nest.n
      requires l < k < |access[i]| && (access[i][k].isWrite || access[i][l].isWrite) && Meet(i, k, x, i, l, y)
      requires LexPositive(Difference(y, x))
      ensures ListHolds(nest.tests(i, i).first, Difference(y, x))
              || ListHolds(nest.tests(i, i).second, Difference(y, x))
    {
      var v, w := Difference(y, x), Difference(x, y);
      assert Compared(m, i, l, i, k) && w == NegatedVector(v);
      if access[i][k].id == access[i][l].id {
        assert access[i][k].cell == access[i][l].cell;
        assert Meet(i, l, x, i, k, y) && Related(m, i, l, x, i, k, y);
        assert v in m(relation(i, i)(access[i][l], access[i][k]));
      } else {
        assert Meet(i, l, y, i, k, x) && Related(m, i, l, y, i, k, x);
        assert w in m(relation(i, i)(access[i][l], access[i][k]));
        OppositeSign(v);
        NegatedTwice(v);
      }
    }
  }

  // ---------- Conflicts of a run are covered ----------

  /** The iterations of all instances of the run are in the spaces the relations were built for. */
  ghost predicate StaysInside<R>(s: Source<R>, space: nat -> iset<seq<int>>, env: Env) {
    forall i: nat, u: seq<int> ::
      i < |s.nest.paths| && |u| <= s.nest.n && Instance(s.nest.paths[i], u) in WholeRun(s.nest.ts, env) ==>
        Padded(u, s.nest.n) in space(i)
  }

  /** Two instances of a run of the source, the first one first. */
  ghost predicate InRun(nest: Nest, env: Env, i: nat, u: seq<int>, j: nat, w: seq<int>) {
    && nest.Valid() && Forward(env) && i < |nest.paths| && j < |nest.paths|
    && |u| == Depth(nest.ts, nest.paths[i]) && |w| == Depth(nest.ts, nest.paths[j])
    && Precedes(WholeRun(nest.ts, env), Instance(nest.paths[i], u), Instance(nest.paths[j], w))
  }

  lemma InRunFacts(nest: Nest, env: Env, i: nat, u: seq<int>, j: nat, w: seq<int>)
    requires InRun(nest, env, i, u, j, w)
    ensures |u| <= nest.n && |w| <= nest.n
    ensures Instance(nest.paths[i], u) in WholeRun(nest.ts, env) && Instance(nest.paths[j], w) in WholeRun(nest.ts, env)
    ensures i == j ==> LexPositive(FullDistance(u, w, nest.n))
  {
    DepthFits(nest.ts, nest.paths[i], nest.n);
    DepthFits(nest.ts, nest.paths[j], nest.n);
    if i == j {
      var p := nest.paths[i];
      PrecedesIff(nest.ts, env, Instance(p, u), Instance(p, w));
      RunsBeforeIff(nest.ts, p, u, p, w);
      CommonLoopsBound(nest.ts, p, p);
      TextOrderTotal(nest.ts, p, p);
      assert u[..|u|] == u && w[..|w|] == w;
      PaddedIsPositive(u, w, nest.n);
    }
  }

  lemma PaddedIsPositive(u: seq<int>, w: seq<int>, n: nat)
    requires |u| == |w| <= n && LexBefore(u, w)
    ensures LexPositive(FullDistance(u, w, n))
  {
    var k: nat :| PositiveAt(Difference(w, u), k);
    assert PositiveAt(FullDistance(u, w, n), k);
  }

  /** Two instances at a distance some entry's vector holds are a pair of that entry. */
  lemma InstancesArePair(nest: Nest, e: Entry, env: Env, u: seq<int>, w: seq<int>)
    requires nest.Valid() && nest.Found() && e in nest.Entries() && nest.Sound(e) && Forward(env)
    requires |u| == Depth(nest.ts, nest.paths[e.i]) <= nest.n && |w| == Depth(nest.ts, nest.paths[e.j]) <= nest.n
    requires Instance(nest.paths[e.i], u) in WholeRun(nest.ts, env)
             && Instance(nest.paths[e.j], w) in WholeRun(nest.ts, env)
    requires e.d.Contains(FullDistance(u, w, nest.n))
    ensures SourcePair(nest, e, env, u, w)
  {
    var q, v := nest.Ask(e), FullDistance(u, w, nest.n);
    var c := q.Loops();
    CommonLoopsBound(nest.ts, q.p, q.q);
    assert forall k :: 0 <= k < c ==> Difference(w[..c], u[..c])[k] == v[k];
    assert forall k :: 0 <= k < c ==> Within(e.d.lbounds[k], e.d.ubounds[k], v[k]);
  }

  /** A vector on one of the lists is entered and is of a form the program enters. */
  lemma ListEntry(nest: Nest, i: nat, j: nat, k: nat, second: bool) returns (e: Entry)
    requires nest.Valid() && nest.Found() && i <= j < |nest.paths|
    requires k < if second then |nest.tests(i, j).second| else |nest.tests(i, j).first|
    ensures e == if second then Entry(j, i, nest.tests(i, j).second[k], false)
            else Entry(i, j, nest.tests(i, j).first[k], true)
    ensures e in nest.Entries() && nest.Sound(e)
  {
    assert nest.FoundBetween(i, j);
    var t := nest.tests(i, j);
    if second {
      nest.FoundIsEntered(i, j, t.second[k]);
      e := Entry(j, i, t.second[k], false);
    } else {
      nest.FoundIsEntered(i, j, t.first[k]);
      e := Entry(i, j, t.first[k], true);
    }
  }

  /**
   The pair of a vector on a list of statements i <= j, from instance u of i to instance
   w of j or back, as the run has it.
   */
  lemma ListPair(nest: Nest, env: Env, i: nat, u: seq<int>, j: nat, w: seq<int>, second: bool, p: Dependence)
    returns (e: Entry)
    requires nest.Valid() && nest.Found() && Forward(env) && i <= j < |nest.paths|
    requires |u| == Depth(nest.ts, nest.paths[i]) <= nest.n && |w| == Depth(nest.ts, nest.paths[j]) <= nest.n
    requires Instance(nest.paths[i], u) in WholeRun(nest.ts, env)
             && Instance(nest.paths[j], w) in WholeRun(nest.ts, env)
    requires if second then ListHolds(nest.tests(i, j).second, FullDistance(w, u, nest.n))
             else ListHolds(nest.tests(i, j).first, FullDistance(u, w, nest.n))
    requires var run, a, b := WholeRun(nest.ts, env), Instance(nest.paths[i], u), Instance(nest.paths[j], w);
             || (Precedes(run, a, b) && p == Dependence(i, Padded(u, nest.n), j, Padded(w, nest.n)))
             || (Precedes(run, b, a) && p == Dependence(j, Padded(w, nest.n), i, Padded(u, nest.n)))
    ensures if second then SourcePair(nest, e, env, w, u) && AsRun(nest, e, env, w, u, p)
            else SourcePair(nest, e, env, u, w) && AsRun(nest, e, env, u, w, p)
  {
    var ds, v := if second then nest.tests(i, j).second else nest.tests(i, j).first,
                 if second then FullDistance(w, u, nest.n) else FullDistance(u, w, nest.n);
    var k :| 0 <= k < |ds| && ds[k].Valid() && ds[k].Contains(v);
    e := ListEntry(nest, i, j, k, second);
    if second {
      InstancesArePair(nest, e, env, w, u);
    } else {
      InstancesArePair(nest, e, env, u, w);
    }
  }

  /** A conflict of the source, its first instance first. */
  ghost predicate SourceConflict<R(!new)>(s: Source<R>, m: Meaning<R>, space: nat -> iset<seq<int>>, env: Env,
                                          i: nat, u: seq<int>, j: nat, w: seq<int>) {
    && s.WellTested(m, space) && StaysInside(s, space, env) && InRun(s.nest, env, i, u, j, w)
    && |u| <= s.nest.n && |w| <= s.nest.n && s.Conflicting(i, Padded(u, s.nest.n), j, Padded(w, s.nest.n))
  }

  lemma EarlierConflict<R(!new)>(s: Source<R>, m: Meaning<R>, space: nat -> iset<seq<int>>, env: Env,
                                 i: nat, u: seq<int>, j: nat, w: seq<int>, p: Dependence)
    requires SourceConflict(s, m, space, env, i, u, j, w) && i <= j
    requires p == Dependence(i, Padded(u, s.nest.n), j, Padded(w, s.nest.n))
    ensures s.nest.State().Valid() && Covered(s.nest.State(), p)
  {
    var nest, v := s.nest, FullDistance(u, w, s.nest.n);
    InRunFacts(nest, env, i, u, j, w);
    s.ConflictIsFound(m, space, i, Padded(u, nest.n), j, Padded(w, nest.n));
    FullDistanceBack(u, w, nest.n);
    if ListHolds(nest.tests(i, j).first, v) {
      var e := ListPair(nest, env, i, u, j, w, false, p);
      SourceIsCovered(nest, e, env, u, w, p);
    } else if ListHolds(nest.tests(i, j).second, NegatedVector(v)) {
      var e := ListPair(nest, env, i, u, j, w, true, p);
      SourceIsCovered(nest, e, env, w, u, p);
    } else {
      var e := ListPair(nest, env, j, w, i, u, true, p);
      SourceIsCovered(nest, e, env, u, w, p);
    }
  }

  lemma LaterConflict<R(!new)>(s: Source<R>, m: Meaning<R>, space: nat -> iset<seq<int>>, env: Env,
                               i: nat, u: seq<int>, j: nat, w: seq<int>, p: Dependence)
    requires SourceConflict(s, m, space, env, i, u, j, w) && j < i
    requires p == Dependence(i, Padded(u, s.nest.n), j, Padded(w, s.nest.n))
    ensures s.nest.State().Valid() && Covered(s.nest.State(), p)
  {
    var nest, v := s.nest, FullDistance(w, u, s.nest.n);
    InRunFacts(nest, env, i, u, j, w);
    s.ConflictingSymmetric(i, Padded(u, nest.n), j, Padded(w, nest.n));
    s.ConflictIsFound(m, space, j, Padded(w, nest.n), i, Padded(u, nest.n));
    FullDistanceBack(w, u, nest.n);
    if ListHolds(nest.tests(j, i).first, v) {
      var e := ListPair(nest, env, j, w, i, u, false, p);
      SourceIsCovered(nest, e, env, w, u, p);
    } else {
      var e := ListPair(nest, env, j, w, i, u, true, p);
      SourceIsCovered(nest, e, env, u, w, p);
    }
  }

  /**
   The whole chain: whenever two instances of the source conflict, the initial graph
   covers the pair in the order in which the source runs it, and so does the graph
   after every run of transformations in which nothing throws.
   */
  lemma ConflictsStayCovered<R(!new)>(s: Source<R>, m: Meaning<R>, space: nat -> iset<seq<int>>, env: Env,
                                      i: nat, u: seq<int>, j: nat, w: seq<int>, states: seq<LoopState>, ops: seq<Op>)
    requires SourceConflict(s, m, space, env, i, u, j, w)
    requires IsRun(states, ops) && states[0] == s.nest.State()
    ensures forall k :: 0 <= k <= |ops| ==>
                          states[k].Valid() && Covered(states[k],
                            Dependence(i, Padded(u, s.nest.n), j, Padded(w, s.nest.n)))
  {
    var p := Dependence(i, Padded(u, s.nest.n), j, Padded(w, s.nest.n));
    if i <= j {
      EarlierConflict(s, m, space, env, i, u, j, w, p);
    } else {
      LaterConflict(s, m, space, env, i, u, j, w, p);
    }
    forall k | 0 <= k <= |ops|
      ensures states[k].Valid() && Covered(states[k], p)
    {
      RunKeepsCovered(states, ops, k, p);
    }
  }

  // ---------- One statement: the memory ----------

  /** The iterations of the run, as the transformations see them. */
  ghost function Iterations(run: seq<Instance>, n: nat): (xs: seq<seq<int>>)
    requires forall k :: 0 <= k < |run| ==> |run[k].iters| <= n
    ensures |xs| == |run| && forall k :: 0 <= k < |run| ==> xs[k] == Padded(run[k].iters, n)
  {
    seq(|run|, k requires 0 <= k < |run| => Padded(run[k].iters, n))
  }

  /** The control tree has one statement. */
  ghost predicate OnlyStatement(nest: Nest) {
    nest.Valid() && nest.Found() && |nest.paths| == 1 && forall a :: Address(nest.ts, a) ==> a == nest.paths[0]
  }

  /** Every instance of the run is one of the statement, and they run in lexicographic order. */
  lemma RunOfStatement(nest: Nest, env: Env)
    requires OnlyStatement(nest) && Forward(env)
    ensures forall k :: 0 <= k < |WholeRun(nest.ts, env)| ==>
                          var e := WholeRun(nest.ts, env)[k];
                          e.path == nest.paths[0] && |e.iters| == Depth(nest.ts, nest.paths[0]) <= nest.n
  {
    var run := WholeRun(nest.ts, env);
    TraceInOrder(nest.ts, 0, [], [], env);
    DepthFits(nest.ts, nest.paths[0], nest.n);
    forall k | 0 <= k < |run|
      ensures run[k].path == nest.paths[0] && |run[k].iters| == Depth(nest.ts, nest.paths[0])
    {
      assert Below(nest.ts, 0, [], [], run[k]);
      Whole(nest.ts, run[k]);
    }
  }

  /** The order in which the source runs, as iterations. */
  ghost function SourceOrder(nest: Nest, env: Env): (xs: seq<seq<int>>)
    requires OnlyStatement(nest) && Forward(env)
    ensures |xs| == |WholeRun(nest.ts, env)|
  {
    RunOfStatement(nest, env);
    Iterations(WholeRun(nest.ts, env), nest.n)
  }

  /** Two iterations of the source order are those of two instances of the run, in that order. */
  lemma OrderedInstances(nest: Nest, env: Env, k: nat, l: nat) returns (u: seq<int>, w: seq<int>)
    requires OnlyStatement(nest) && Forward(env) && k < l < |SourceOrder(nest, env)|
    ensures InRun(nest, env, 0, u, 0, w) && |u| <= nest.n && |w| <= nest.n
    ensures SourceOrder(nest, env)[k] == Padded(u, nest.n) && SourceOrder(nest, env)[l] == Padded(w, nest.n)
  {
    RunOfStatement(nest, env);
    var run := WholeRun(nest.ts, env);
    u, w := run[k].iters, run[l].iters;
    assert run[k] == Instance(nest.paths[0], u) && run[l] == Instance(nest.paths[0], w);
  }

  /** The source order is the lexicographic order of the initial schedule. */
  lemma SourceRunsInOrder(nest: Nest, env: Env)
    requires OnlyStatement(nest) && Forward(env)
    ensures LoopMeaning.OneStatement(nest.State()) && LoopMeaning.RunsInOrder(nest.State(), SourceOrder(nest, env))
  {
    nest.StateIsValid();
    RunOfStatement(nest, env);
    var xs := SourceOrder(nest, env);
    forall k, l | 0 <= k < l < |xs|
      ensures LexPositive(Distance(nest.State(), LoopMeaning.Pair(xs[k], xs[l])))
    {
      var u, w := OrderedInstances(nest, env, k, l);
      InRunFacts(nest, env, 0, u, 0, w);
      InitialDistance(nest, 0, u, 0, w);
    }
  }

  /** The statement touches only cells its references touch, and writes only through references that write. */
  ghost predicate Touches(b: Body<seq<int>>, access: seq<Access>) {
    && (forall x, c :: c in b.writeSet(x) ==> SomeReference(access, x, c, true))
    && (forall x, c :: c in b.readSet(x) ==> SomeReference(access, x, c, false))
  }

  ghost predicate SomeReference(access: seq<Access>, x: seq<int>, c: Cell, writes: bool) {
    exists k :: 0 <= k < |access| && access[k].cell(x) == c && (writes ==> access[k].isWrite)
  }

  lemma BodyConflicts<R>(s: Source<R>, b: Body<seq<int>>, x: seq<int>, y: seq<int>)
    requires |s.access| == 1 && Touches(b, s.access[0]) && Conflict(b, x, y)
    ensures s.Conflicting(0, x, 0, y)
  {
    if c :| c in b.writeSet(x) && (c in b.writeSet(y) || c in b.readSet(y)) {
      MeetingReferences(s, x, y, c, true);
    } else {
      assert b.readSet(x) * b.writeSet(y) != {} by {
        assert forall c :: c !in b.writeSet(x) * b.writeSet(y) && c !in b.writeSet(x) * b.readSet(y);
      }
      var c :| c in b.readSet(x) * b.writeSet(y);
      MeetingReferences(s, x, y, c, false);
    }
  }

  lemma MeetingReferences<R>(s: Source<R>, x: seq<int>, y: seq<int>, c: Cell, first: bool)
    requires |s.access| == 1 && SomeReference(s.access[0], x, c, first) && SomeReference(s.access[0], y, c, !first)
    ensures s.Conflicting(0, x, 0, y)
  {
    var k: nat :| k < |s.access[0]| && s.access[0][k].cell(x) == c && (first ==> s.access[0][k].isWrite);
    var l: nat :| l < |s.access[0]| && s.access[0][l].cell(y) == c && (!first ==> s.access[0][l].isWrite);
    assert s.Meet(0, k, x, 0, l, y);
  }

  /** A distance that is positive and zero past the loops is positive over the loops. */
  lemma PositiveOverLoops(u: seq<int>, w: seq<int>, n: nat)
    requires |u| == |w| <= n && LexPositive(FullDistance(u, w, n))
    ensures !IsZero(FullDistance(u, w, n)[..|u|])
  {
    var v := FullDistance(u, w, n);
    var k: nat :| PositiveAt(v, k);
    assert v[..|u|][k] == v[k];
  }

  /** A self edge gets the vector of a real pair as it is: it is accepted, and ordinary. */
  lemma SelfEntryAccepted(nest: Nest, e: Entry, u: seq<int>, w: seq<int>)
    requires nest.Valid() && nest.Found() && e in nest.Entries() && nest.Sound(e) && e.i == e.j
    requires |u| == |w| == Depth(nest.ts, nest.paths[e.i]) <= nest.n
    requires e.d.Contains(FullDistance(u, w, nest.n)) && LexPositive(FullDistance(u, w, nest.n))
    ensures e.d in nest.Graph().Edge(e.i, e.i) && LoopMeaning.Ordinary(e.d)
  {
    var q, v := nest.Ask(e), FullDistance(u, w, nest.n);
    CommonLoopsBound(nest.ts, q.p, q.q);
    PositiveOverLoops(u, w, nest.n);
    Trichotomy(v);
    ZeroHoldsZero(e.d, v);
    var k: nat :| LeadsAt(e.d.lbounds, e.d.ubounds, k);
    LeadSign(q, v, k);
    LeadsIsAccepted(q, k);
    nest.EntryIsOnEdge(e, nest.Graph(), q);
  }

  lemma OrdinarilyAdmitted(ds: seq<DependenceVector>, d: DependenceVector, v: seq<int>)
    requires d in ds && LoopMeaning.Ordinary(d) && Admits(d, v)
    ensures LoopMeaning.OrdinaryAdmits(ds, v)
  {
    var k :| 0 <= k < |ds| && ds[k] == d;
  }

  /** Every conflict of the statement is covered by an ordinary vector of the initial graph. */
  lemma ConflictIsOrdinary<R(!new)>(s: Source<R>, m: Meaning<R>, space: nat -> iset<seq<int>>, env: Env, u: seq<int>,
                                    w: seq<int>)
    requires SourceConflict(s, m, space, env, 0, u, 0, w)
    ensures s.nest.State().Valid()
    ensures LoopMeaning.OrdinaryCovered(s.nest.State(), LoopMeaning.Pair(Padded(u, s.nest.n), Padded(w, s.nest.n)))
  {
    var nest, v, t := s.nest, FullDistance(u, w, s.nest.n), s.nest.tests(0, 0);
    InRunFacts(nest, env, 0, u, 0, w);
    s.ConflictIsFound(m, space, 0, Padded(u, nest.n), 0, Padded(w, nest.n));
    assert nest.FoundBetween(0, 0);
    if ListHolds(t.second, NegatedVector(v)) {
      HeldIsPositive(t.second, nest.n, NegatedVector(v));
      OppositeSign(v);
      Trichotomy(NegatedVector(v));
    }
    var second := !ListHolds(t.first, v);
    var ds := if second then t.second else t.first;
    var k :| 0 <= k < |ds| && ds[k].Valid() && ds[k].Contains(v);
    var e := ListEntry(nest, 0, 0, k, second);
    SelfEntryAccepted(nest, e, u, w);
    OrdinarilyAdmitted(nest.Graph().Edge(0, 0), e.d, v);
    InitialDistance(nest, 0, u, 0, w);
  }

  /**
   A one-statement source: its references were compared, they are all the statement
   touches, and it runs as env says.
   */
  ghost predicate Program<R(!new)>(s: Source<R>, m: Meaning<R>, space: nat -> iset<seq<int>>, env: Env,
                                   b: Body<seq<int>>) {
    && s.WellTested(m, space) && OnlyStatement(s.nest) && Forward(env) && StaysInside(s, space, env)
    && Touches(b, s.access[0])
  }

  lemma ConflictsAreOrdinary<R(!new)>(s: Source<R>, m: Meaning<R>, space: nat -> iset<seq<int>>, env: Env,
                                      b: Body<seq<int>>)
    requires Program(s, m, space, env, b)
    ensures LoopMeaning.OneStatement(s.nest.State())
    ensures LoopMeaning.ConflictsOrdinarilyCovered(s.nest.State(), b, SourceOrder(s.nest, env))
  {
    var xs := SourceOrder(s.nest, env);
    s.nest.StateIsValid();
    forall x, y | Precedes(xs, x, y) && Conflict(b, x, y)
      ensures LoopMeaning.OrdinaryCovered(s.nest.State(), LoopMeaning.Pair(x, y))
    {
      var k, l :| 0 <= k < l < |xs| && xs[k] == x && xs[l] == y;
      var u, w := OrderedInstances(s.nest, env, k, l);
      BodyConflicts(s, b, x, y);
      ConflictIsOrdinary(s, m, space, env, u, w);
    }
  }

  /**
   From source to memory: after any run of permutations that does not throw, running
   the statement in the order of the final schedule leaves the memory the source
   leaves.
   */
  lemma PermutedSourceKeepsMemory<R(!new)>(s: Source<R>, m: Meaning<R>, space: nat -> iset<seq<int>>, env: Env,
                                           b: Body<seq<int>>, states: seq<LoopState>, ops: seq<Op>,
                                           after: seq<seq<int>>, memory: Memory)
    requires Program(s, m, space, env, b) && IsRun(states, ops) && states[0] == s.nest.State()
    requires forall i :: 0 <= i < |ops| ==> ops[i].PermuteOp?
    ensures LoopMeaning.OneStatement(states[|ops|])
    ensures LoopMeaning.RunsInOrder(states[|ops|], after) && SameElements(SourceOrder(s.nest, env), after) ==>
              Run(b, SourceOrder(s.nest, env), memory) == Run(b, after, memory)
  {
    SourceRunsInOrder(s.nest, env);
    ConflictsAreOrdinary(s, m, space, env, b);
    LoopMeaning.PermuteRunPreservesMemory(states, ops, b, SourceOrder(s.nest, env), after, memory);
  }

  /** The same for any of the five transformations, when the graph at the end admits no negative distance. */
  lemma LegalSourceKeepsMemory<R(!new)>(s: Source<R>, m: Meaning<R>, space: nat -> iset<seq<int>>, env: Env,
                                        b: Body<seq<int>>, states: seq<LoopState>, ops: seq<Op>, after: seq<seq<int>>,
                                        memory: Memory)
    requires Program(s, m, space, env, b) && IsRun(states, ops) && states[0] == s.nest.State()
    ensures LoopMeaning.OneStatement(states[|ops|])
    ensures LoopMeaning.FinallyLegal(states[|ops|]) && LoopMeaning.RunsInOrder(states[|ops|], after)
            && SameElements(SourceOrder(s.nest, env), after) ==>
              Run(b, SourceOrder(s.nest, env), memory) == Run(b, after, memory)
  {
    SourceRunsInOrder(s.nest, env);
    ConflictsAreOrdinary(s, m, space, env, b);
    OrdinaryIsCovered(s.nest.State(), b, SourceOrder(s.nest, env));
    LoopMeaning.LegalRunPreservesMemory(states, ops, b, SourceOrder(s.nest, env), after, memory);
  }

  lemma OrdinaryIsCovered(t: LoopState, b: Body<seq<int>>, order: seq<seq<int>>)
    requires LoopMeaning.OneStatement(t) && LoopMeaning.ConflictsOrdinarilyCovered(t, b, order)
    ensures LoopMeaning.ConflictsCovered(t, b, order)
  {
    forall x, y | Precedes(order, x, y) && Conflict(b, x, y)
      ensures Covered(t, LoopMeaning.Pair(x, y))
    {
      assert LoopMeaning.OrdinaryCovered(t, LoopMeaning.Pair(x, y));
    }
  }
}
