/**
 test_data_dependences (chill/irtools.cc:267-424): the references of two
 statements, or of one, are compared pair by pair, and the vectors of all pairs
 are collected. Together they cover every conflict between instances.
 */
module DataTests {
  import opened Lexicographic
  import opened Lists
  import opened DependenceVectors
  import opened Execution
  import opened RelationVectors

  // An array reference: where it is in the text, its array, and the cell it touches in an iteration.
  datatype Access = Access(id: int, symbol: int, isWrite: bool, cell: seq<int> -> Cell)

  predicate MayConflict(a: Access, b: Access) {
    a.symbol == b.symbol && (a.isWrite || b.isWrite)
  }

  // ---------- Lists that grow ----------

  lemma HoldsAmong(ds: seq<DependenceVector>, es: seq<DependenceVector>, v: seq<int>)
    requires ListHolds(ds, v) && forall d :: d in ds ==> d in es
    ensures ListHolds(es, v)
  {
    var k :| 0 <= k < |ds| && ds[k].Valid() && ds[k].Contains(v);
    assert ds[k] in es;
    var j :| 0 <= j < |es| && es[j] == ds[k];
  }

  lemma CoversMore(first: seq<DependenceVector>, second: seq<DependenceVector>, f: seq<DependenceVector>,
                   s: seq<DependenceVector>, reals: iset<seq<int>>, trivial: bool)
    requires Covers(f, s, reals, trivial)
    requires (forall d :: d in f ==> d in first) && forall d :: d in s ==> d in second
    ensures Covers(first, second, reals, trivial)
  {
    forall v | v in reals && (LexPositive(v) || (IsZero(v) && !trivial))
      ensures ListHolds(first, v)
    {
      HoldsAmong(f, first, v);
    }
    forall v | v in reals && LexNegative(v) && !trivial
      ensures ListHolds(second, NegatedVector(v))
    {
      HoldsAmong(s, second, NegatedVector(v));
    }
  }

  lemma ProducedTogether(ds: seq<DependenceVector>, es: seq<DependenceVector>, n: nat, second: bool)
    requires AllProduced(ds, n, second) && AllProduced(es, n, second)
    ensures AllProduced(ds + es, n, second)
  {
  }

  // ---------- Two statements (chill/irtools.cc:389-421) ----------

  // What arrays2relation builds for two references.
  type Relations<!R> = (Access, Access) -> R

  ghost predicate CoversPair<R>(first: seq<DependenceVector>, second: seq<DependenceVector>, relation: Relations<R>,
                                m: Meaning<R>, a: Access, b: Access) {
    MayConflict(a, b) ==> Covers(first, second, m(relation(a, b)), a.id == b.id)
  }

  /** The pairs before (i, j) in the order of the two loops. */
  predicate Before(k: int, l: int, i: int, j: int) {
    k < i || (k == i && l < j)
  }

  // The two lists of vectors of one pair of references.
  type Pair = (seq<DependenceVector>, seq<DependenceVector>)

  /**
   The lists of references a and b: none if they cannot conflict. Otherwise the vectors of
   the first start with what a does and end with what b does, those of the second the
   other way round; together they cover the relation, and each stands for distances of
   its own.
   */
  ghost predicate PairResult<R(!new)>(o: Omega<R>, relation: Relations<R>, m: Meaning<R>, n: nat, a: Access, b: Access,
                                      vs: Pair) {
    if a.symbol == b.symbol && (a.isWrite || b.isWrite) then
      && Covers(vs.0, vs.1, m(relation(a, b)), a.id == b.id)
      && AllOfKind(vs.0, a.isWrite, b.isWrite) && AllOfKind(vs.1, b.isWrite, a.isWrite)
      && Inhabited(vs.0, m(relation(a, b)), false) && Inhabited(vs.1, m(relation(a, b)), true)
      && Explained(o, m, relation(a, b), n, vs.0, vs.1) && (a.id == b.id ==> AllLead(vs.0))
    else
      vs == ([], [])
  }

  /** The vectors of one pair of references, none if they cannot conflict. */
  method TestPair<R(!new)>(o: Omega<R>, relation: Relations<R>, a: Access, b: Access, n: nat, ghost m: Meaning<R>)
    returns (first: seq<DependenceVector>, second: seq<DependenceVector>)
    requires Exact(o, m, n)
    ensures AllProduced(first, n, false) && AllProduced(second, n, true) && CoversPair(first, second, relation, m, a, b)
    ensures PairResult(o, relation, m, n, a, b, (first, second))
  {
    first, second := [], [];
    if a.symbol == b.symbol && (a.isWrite || b.isWrite) {
      first, second := RelationToVectors(o, relation(a, b), n, a.id == b.id, a.isWrite, b.isWrite, m);
    }
  }

  // ---------- The lists of several pairs ----------

  /** The first and the second list of a pair. */
  ghost function FirstOf(found: map<(nat, nat), Pair>): ((nat, nat)) -> seq<DependenceVector> {
    (p: (nat, nat)) => if p in found then found[p].0 else []
  }

  ghost function SecondOf(found: map<(nat, nat), Pair>): ((nat, nat)) -> seq<DependenceVector> {
    (p: (nat, nat)) => if p in found then found[p].1 else []
  }

  /** The lists are those of the pairs in order, one after the other. */
  ghost predicate Collected<R(!new)>(o: Omega<R>, relation: Relations<R>, m: Meaning<R>, n: nat, access1: seq<Access>,
                                     access2: seq<Access>, order: seq<(nat, nat)>, found: map<(nat, nat), Pair>,
                                     first: seq<DependenceVector>, second: seq<DependenceVector>) {
    && (forall t :: 0 <= t < |order| ==> order[t] in found)
    && (forall p :: p in found ==> p.0 < |access1| && p.1 < |access2|
                                   && PairResult(o, relation, m, n, access1[p.0], access2[p.1], found[p]))
    && first == Flatten(order, FirstOf(found)) && second == Flatten(order, SecondOf(found))
  }

  /** The pairs come in the order of two nested loops, each once. */
  predicate InLoopOrder(order: seq<(nat, nat)>) {
    forall s, t :: 0 <= s < t < |order| ==> Before(order[s].0, order[s].1, order[t].0, order[t].1)
  }

  /** order lists the pairs before (i, j), those with the first index not above the second if they are triangular. */
  ghost predicate ListsPairs(order: seq<(nat, nat)>, i: nat, j: nat, n1: nat, n2: nat, triangular: bool,
                             held: (nat, nat) -> bool) {
    && InLoopOrder(order)
    && forall k: nat, l: nat :: (k, l) in order <==>
         k < n1 && l < n2 && (triangular ==> k <= l) && Before(k, l, i, j) && !held(k, l)
  }

  lemma FoundMore<R(!new)>(o: Omega<R>, relation: Relations<R>, m: Meaning<R>, n: nat, access1: seq<Access>,
                           access2: seq<Access>, order: seq<(nat, nat)>, found: map<(nat, nat), Pair>,
                           first: seq<DependenceVector>, second: seq<DependenceVector>, p: (nat, nat), vs: Pair)
    requires Collected(o, relation, m, n, access1, access2, order, found, first, second) && p !in found
    requires p.0 < |access1| && p.1 < |access2| && PairResult(o, relation, m, n, access1[p.0], access2[p.1], vs)
    ensures Collected(o, relation, m, n, access1, access2, order, found[p := vs], first, second)
  {
    FlattenSame(order, FirstOf(found), FirstOf(found[p := vs]));
    FlattenSame(order, SecondOf(found), SecondOf(found[p := vs]));
  }

  lemma CollectNext<R(!new)>(o: Omega<R>, relation: Relations<R>, m: Meaning<R>, n: nat, access1: seq<Access>,
                             access2: seq<Access>, order: seq<(nat, nat)>, found: map<(nat, nat), Pair>,
                             first: seq<DependenceVector>, second: seq<DependenceVector>, p: (nat, nat))
    requires Collected(o, relation, m, n, access1, access2, order, found, first, second) && p in found
    ensures Collected(o, relation, m, n, access1, access2, order + [p], found, first + found[p].0, second + found[p].1)
  {
    FlattenPush(order, p, FirstOf(found));
    FlattenPush(order, p, SecondOf(found));
  }

  lemma ListsNext(order: seq<(nat, nat)>, i: nat, j: nat, n1: nat, n2: nat, triangular: bool, held: (nat, nat) -> bool)
    requires ListsPairs(order, i, j, n1, n2, triangular, held) && i < n1 && j < n2 && (triangular ==> i <= j)
    ensures ListsPairs(if held(i, j) then order else order + [(i, j)], i, j + 1, n1, n2, triangular, held)
  {
    if !held(i, j) {
      forall t | 0 <= t < |order|
        ensures Before(order[t].0, order[t].1, i, j)
      {
        assert (order[t].0, order[t].1) in order;
      }
    }
  }

  lemma ListsNextRow(order: seq<(nat, nat)>, i: nat, n1: nat, n2: nat, triangular: bool, held: (nat, nat) -> bool)
    requires ListsPairs(order, i, n2, n1, n2, triangular, held)
    ensures ListsPairs(order, i + 1, if triangular then i + 1 else 0, n1, n2, triangular, held)
  {
  }

  /** What was collected covers the relation of every pair listed. */
  lemma CollectedCovers<R(!new)>(o: Omega<R>, relation: Relations<R>, m: Meaning<R>, n: nat, access1: seq<Access>,
                                 access2: seq<Access>, order: seq<(nat, nat)>, found: map<(nat, nat), Pair>,
                                 first: seq<DependenceVector>, second: seq<DependenceVector>)
    requires Collected(o, relation, m, n, access1, access2, order, found, first, second)
    ensures forall k: nat, l: nat :: (k, l) in order ==>
              k < |access1| && l < |access2| && CoversPair(first, second, relation, m, access1[k], access2[l])
  {
    forall k: nat, l: nat | (k, l) in order
      ensures k < |access1| && l < |access2| && CoversPair(first, second, relation, m, access1[k], access2[l])
    {
      ListedCovers(o, relation, m, n, access1, access2, order, found, first, second, k, l);
    }
  }

  lemma ListedCovers<R(!new)>(o: Omega<R>, relation: Relations<R>, m: Meaning<R>, n: nat, access1: seq<Access>,
                              access2: seq<Access>, order: seq<(nat, nat)>, found: map<(nat, nat), Pair>,
                              first: seq<DependenceVector>, second: seq<DependenceVector>, k: nat, l: nat)
    requires Collected(o, relation, m, n, access1, access2, order, found, first, second) && (k, l) in order
    ensures k < |access1| && l < |access2| && CoversPair(first, second, relation, m, access1[k], access2[l])
  {
    var t :| 0 <= t < |order| && order[t] == (k, l);
    var vs := found[(k, l)];
    forall d
      ensures d in vs.0 ==> d in first
      ensures d in vs.1 ==> d in second
    {
      FlattenMember(order, FirstOf(found), d);
      FlattenMember(order, SecondOf(found), d);
      assert vs.0 == FirstOf(found)(order[t]) && vs.1 == SecondOf(found)(order[t]);
    }
    if MayConflict(access1[k], access2[l]) {
      CoversMore(first, second, vs.0, vs.1, m(relation(access1[k], access2[l])), access1[k].id == access2[l].id);
    }
  }

  /** The state of the loops at (i, j). */
  ghost predicate Comparing<R(!new)>(o: Omega<R>, relation: Relations<R>, m: Meaning<R>, n: nat, access1: seq<Access>,
                                  access2: seq<Access>, order: seq<(nat, nat)>, found: map<(nat, nat), Pair>,
                                  first: seq<DependenceVector>, second: seq<DependenceVector>, i: nat, j: nat,
                                  triangular: bool, held: (nat, nat) -> bool) {
    && Gathered(o, relation, m, n, access1, access2, order, found, first, second)
    && ListsPairs(order, i, j, |access1|, |access2|, triangular, held)
    && FoundUpTo(found, |access1|, |access2|, i, j, triangular)
  }

  /** The lists of the pairs in order, of vectors of the forms relation2dependences returns. */
  ghost predicate Gathered<R(!new)>(o: Omega<R>, relation: Relations<R>, m: Meaning<R>, n: nat, access1: seq<Access>,
                                    access2: seq<Access>, order: seq<(nat, nat)>, found: map<(nat, nat), Pair>,
                                    first: seq<DependenceVector>, second: seq<DependenceVector>) {
    && Collected(o, relation, m, n, access1, access2, order, found, first, second)
    && AllProduced(first, n, false) && AllProduced(second, n, true) && AllFoundProduced(found, n)
  }

  ghost predicate AllFoundProduced(found: map<(nat, nat), Pair>, n: nat) {
    forall p :: p in found ==> AllProduced(found[p].0, n, false) && AllProduced(found[p].1, n, true)
  }

  /** The lists of every pair before (i, j) are at hand, held back or not. */
  ghost predicate FoundUpTo(found: map<(nat, nat), Pair>, n1: nat, n2: nat, i: nat, j: nat, triangular: bool) {
    forall k: nat, l: nat :: (k, l) in found <==> k < n1 && l < n2 && (triangular ==> k <= l) && Before(k, l, i, j)
  }

  lemma GatherNext<R(!new)>(o: Omega<R>, relation: Relations<R>, m: Meaning<R>, n: nat, access1: seq<Access>,
                            access2: seq<Access>, order: seq<(nat, nat)>, found: map<(nat, nat), Pair>,
                            first: seq<DependenceVector>, second: seq<DependenceVector>, p: (nat, nat))
    requires Gathered(o, relation, m, n, access1, access2, order, found, first, second) && p in found
    ensures Gathered(o, relation, m, n, access1, access2, order + [p], found, first + found[p].0, second + found[p].1)
  {
    CollectNext(o, relation, m, n, access1, access2, order, found, first, second, p);
    ProducedTogether(first, found[p].0, n, false);
    ProducedTogether(second, found[p].1, n, true);
  }

  lemma GatherFound<R(!new)>(o: Omega<R>, relation: Relations<R>, m: Meaning<R>, n: nat, access1: seq<Access>,
                             access2: seq<Access>, order: seq<(nat, nat)>, found: map<(nat, nat), Pair>,
                             first: seq<DependenceVector>, second: seq<DependenceVector>, p: (nat, nat), vs: Pair)
    requires Gathered(o, relation, m, n, access1, access2, order, found, first, second) && p !in found
    requires p.0 < |access1| && p.1 < |access2| && PairResult(o, relation, m, n, access1[p.0], access2[p.1], vs)
    requires AllProduced(vs.0, n, false) && AllProduced(vs.1, n, true)
    ensures Gathered(o, relation, m, n, access1, access2, order, found[p := vs], first, second)
  {
    FoundMore(o, relation, m, n, access1, access2, order, found, first, second, p, vs);
  }

  lemma FoundNext(found: map<(nat, nat), Pair>, n1: nat, n2: nat, i: nat, j: nat, triangular: bool, vs: Pair)
    requires FoundUpTo(found, n1, n2, i, j, triangular) && i < n1 && j < n2 && (triangular ==> i <= j)
    ensures (i, j) !in found && FoundUpTo(found[(i, j) := vs], n1, n2, i, j + 1, triangular)
  {
  }

  /** One pair more. */
  lemma PairTested<R(!new)>(o: Omega<R>, relation: Relations<R>, m: Meaning<R>, n: nat, access1: seq<Access>,
                            access2: seq<Access>, order: seq<(nat, nat)>, found: map<(nat, nat), Pair>,
                            first: seq<DependenceVector>, second: seq<DependenceVector>, i: nat, j: nat,
                            triangular: bool, held: (nat, nat) -> bool, vs: Pair)
    requires Comparing(o, relation, m, n, access1, access2, order, found, first, second, i, j, triangular, held)
    requires i < |access1| && j < |access2| && (triangular ==> i <= j)
    requires PairResult(o, relation, m, n, access1[i], access2[j], vs)
    requires AllProduced(vs.0, n, false) && AllProduced(vs.1, n, true)
    ensures held(i, j) ==>
              Comparing(o, relation, m, n, access1, access2, order, found[(i, j) := vs], first, second, i, j + 1,
                     triangular, held)
    ensures !held(i, j) ==>
              Comparing(o, relation, m, n, access1, access2, order + [(i, j)], found[(i, j) := vs], first + vs.0,
                     second + vs.1, i, j + 1, triangular, held)
  {
    var now := found[(i, j) := vs];
    FoundNext(found, |access1|, |access2|, i, j, triangular, vs);
    ListsNext(order, i, j, |access1|, |access2|, triangular, held);
    GatherFound(o, relation, m, n, access1, access2, order, found, first, second, (i, j), vs);
    assert now[(i, j)] == vs;
    GatherNext(o, relation, m, n, access1, access2, order, now, first, second, (i, j));
  }

  lemma RowTested<R(!new)>(o: Omega<R>, relation: Relations<R>, m: Meaning<R>, n: nat, access1: seq<Access>,
                           access2: seq<Access>, order: seq<(nat, nat)>, found: map<(nat, nat), Pair>,
                           first: seq<DependenceVector>, second: seq<DependenceVector>, i: nat, triangular: bool,
                           held: (nat, nat) -> bool)
    requires Comparing(o, relation, m, n, access1, access2, order, found, first, second, i, |access2|, triangular, held)
    ensures Comparing(o, relation, m, n, access1, access2, order, found, first, second, i + 1,
                   if triangular then i + 1 else 0, triangular, held)
  {
    ListsNextRow(order, i, |access1|, |access2|, triangular, held);
  }

  /** All pairs of two statements, one after the other. */
  ghost predicate AllTested<R(!new)>(o: Omega<R>, relation: Relations<R>, m: Meaning<R>, n: nat, access1: seq<Access>,
                                     access2: seq<Access>, first: seq<DependenceVector>,
                                     second: seq<DependenceVector>) {
    exists order, found ::
      && Collected(o, relation, m, n, access1, access2, order, found, first, second)
      && ListsPairs(order, |access1|, 0, |access1|, |access2|, false, (k, l) => false)
  }

  method TestStatements<R(!new)>(o: Omega<R>, relation: Relations<R>, access1: seq<Access>, access2: seq<Access>,
                                 n: nat, ghost m: Meaning<R>)
    returns (first: seq<DependenceVector>, second: seq<DependenceVector>)
    requires Exact(o, m, n)
    ensures AllProduced(first, n, false) && AllProduced(second, n, true)
    ensures forall k, l :: 0 <= k < |access1| && 0 <= l < |access2| ==>
            CoversPair(first, second, relation, m, access1[k], access2[l])
    ensures AllTested(o, relation, m, n, access1, access2, first, second)
  {
    first, second := [], [];
    ghost var order: seq<(nat, nat)>, found: map<(nat, nat), Pair> := [], map[];
    ghost var held := (k, l) => false;
    for i := 0 to |access1|
      invariant Comparing(o, relation, m, n, access1, access2, order, found, first, second, i, 0, false, held)
    {
      for j := 0 to |access2|
        invariant Comparing(o, relation, m, n, access1, access2, order, found, first, second, i, j, false, held)
      {
        var f, s := TestPair(o, relation, access1[i], access2[j], n, m);
        PairTested(o, relation, m, n, access1, access2, order, found, first, second, i, j, false, held, (f, s));
        order, found := order + [(i, j)], found[(i, j) := (f, s)];
        first, second := first + f, second + s;
      }
      RowTested(o, relation, m, n, access1, access2, order, found, first, second, i, false, held);
    }
    StatementsTested(o, relation, m, n, access1, access2, order, found, first, second);
  }

  lemma StatementsTested<R(!new)>(o: Omega<R>, relation: Relations<R>, m: Meaning<R>, n: nat, access1: seq<Access>,
                                  access2: seq<Access>, order: seq<(nat, nat)>, found: map<(nat, nat), Pair>,
                                  first: seq<DependenceVector>, second: seq<DependenceVector>)
    requires Comparing(o, relation, m, n, access1, access2, order, found, first, second, |access1|, 0, false,
                    (k, l) => false)
    ensures AllProduced(first, n, false) && AllProduced(second, n, true)
    ensures AllTested(o, relation, m, n, access1, access2, first, second)
    ensures forall k, l :: 0 <= k < |access1| && 0 <= l < |access2| ==>
            CoversPair(first, second, relation, m, access1[k], access2[l])
  {
    CollectedCovers(o, relation, m, n, access1, access2, order, found, first, second);
    forall k, l | 0 <= k < |access1| && 0 <= l < |access2|
      ensures CoversPair(first, second, relation, m, access1[k], access2[l])
    {
      assert (k, l) in order;
    }
  }

  // ---------- One statement (chill/irtools.cc:304-385) ----------

  // What checkReductionDependence decides: the pairs whose vectors are held back, and those it appends at the end.
  datatype Reductions = Reductions(held: (nat, nat) -> bool, late: seq<(nat, nat)>)

  /** The pairs of one statement in textual order that are not held back, then the late ones. */
  ghost predicate SelfTested<R(!new)>(o: Omega<R>, relation: Relations<R>, m: Meaning<R>, n: nat, access: seq<Access>,
                                      reductions: Reductions, first: seq<DependenceVector>,
                                      second: seq<DependenceVector>) {
    exists order, found ::
      && Collected(o, relation, m, n, access, access, order + reductions.late, found, first, second)
      && ListsPairs(order, |access|, |access|, |access|, |access|, true, reductions.held)
  }

  /** All pairs in textual order; found has the lists of those held back, too. */
  method TestEarly<R(!new)>(o: Omega<R>, relation: Relations<R>, access: seq<Access>, n: nat,
                            held: (nat, nat) -> bool, ghost m: Meaning<R>)
    returns (first: seq<DependenceVector>, second: seq<DependenceVector>, found: map<(nat, nat), Pair>,
             ghost order: seq<(nat, nat)>)
    requires Exact(o, m, n)
    ensures Comparing(o, relation, m, n, access, access, order, found, first, second, |access|, |access|, true, held)
  {
    first, second, found, order := [], [], map[], [];
    for i := 0 to |access|
      invariant Comparing(o, relation, m, n, access, access, order, found, first, second, i, i, true, held)
    {
      for j := i to |access|
        invariant Comparing(o, relation, m, n, access, access, order, found, first, second, i, j, true, held)
      {
        var f, s := TestPair(o, relation, access[i], access[j], n, m);
        PairTested(o, relation, m, n, access, access, order, found, first, second, i, j, true, held, (f, s));
        found := found[(i, j) := (f, s)];
        if !held(i, j) {
          order := order + [(i, j)];
          first, second := first + f, second + s;
        }
      }
      RowTested(o, relation, m, n, access, access, order, found, first, second, i, true, held);
    }
  }

  method TestSelf<R(!new)>(o: Omega<R>, relation: Relations<R>, access: seq<Access>, n: nat, reductions: Reductions,
                           ghost m: Meaning<R>)
    returns (first: seq<DependenceVector>, second: seq<DependenceVector>)
    requires Exact(o, m, n)
    requires forall k :: 0 <= k < |reductions.late| ==> reductions.late[k].0 <= reductions.late[k].1 < |access|
    ensures AllProduced(first, n, false) && AllProduced(second, n, true)
    ensures forall k, l :: 0 <= k <= l < |access| && (!reductions.held(k, l) || (k, l) in reductions.late) ==>
                             CoversPair(first, second, relation, m, access[k], access[l])
    ensures SelfTested(o, relation, m, n, access, reductions, first, second)
  {
    var found;
    ghost var order;
    first, second, found, order := TestEarly(o, relation, access, n, reductions.held, m);
    first, second := AppendLate(o, relation, access, n, reductions.late, found, first, second, m, order);
    SelfDone(o, relation, m, n, access, reductions, order, found, first, second);
  }

  lemma SelfDone<R(!new)>(o: Omega<R>, relation: Relations<R>, m: Meaning<R>, n: nat, access: seq<Access>,
                          reductions: Reductions, order: seq<(nat, nat)>, found: map<(nat, nat), Pair>,
                          first: seq<DependenceVector>, second: seq<DependenceVector>)
    requires Gathered(o, relation, m, n, access, access, order + reductions.late, found, first, second)
    requires ListsPairs(order, |access|, |access|, |access|, |access|, true, reductions.held)
    ensures SelfTested(o, relation, m, n, access, reductions, first, second)
    ensures forall k, l :: 0 <= k <= l < |access| && (!reductions.held(k, l) || (k, l) in reductions.late) ==>
                             CoversPair(first, second, relation, m, access[k], access[l])
  {
    CollectedCovers(o, relation, m, n, access, access, order + reductions.late, found, first, second);
    forall k, l | 0 <= k <= l < |access| && (!reductions.held(k, l) || (k, l) in reductions.late)
      ensures CoversPair(first, second, relation, m, access[k], access[l])
    {
      assert (k, l) in order || (k, l) in reductions.late;
    }
  }

  /** The vectors checkReductionDependence appends. */
  method AppendLate<R(!new)>(o: Omega<R>, relation: Relations<R>, access: seq<Access>, n: nat, late: seq<(nat, nat)>,
                             found: map<(nat, nat), Pair>, first0: seq<DependenceVector>,
                             second0: seq<DependenceVector>, ghost m: Meaning<R>, ghost order: seq<(nat, nat)>)
    returns (first: seq<DependenceVector>, second: seq<DependenceVector>)
    requires Gathered(o, relation, m, n, access, access, order, found, first0, second0)
    requires forall k :: 0 <= k < |late| ==> late[k] in found
    ensures Gathered(o, relation, m, n, access, access, order + late, found, first, second)
  {
    first, second := first0, second0;
    ghost var done := order;
    for t := 0 to |late|
      invariant done == order + late[..t]
      invariant Gathered(o, relation, m, n, access, access, done, found, first, second)
    {
      GatherNext(o, relation, m, n, access, access, done, found, first, second, late[t]);
      LateNext(order, late, t);
      done := done + [late[t]];
      first, second := first + found[late[t]].0, second + found[late[t]].1;
    }
    WholePrefix(late);
  }

  lemma LateNext(order: seq<(nat, nat)>, late: seq<(nat, nat)>, t: nat)
    requires t < |late|
    ensures order + late[..t] + [late[t]] == order + late[..t + 1]
  {
  }

  // ---------- Where the vectors come from ----------

  /**
   The vector comes from references a and b: one of them writes the array both use, it
   starts and ends with what they do, and it holds a distance of their relation.
   */
  ghost predicate FromPair<R>(d: DependenceVector, second: bool, relation: Relations<R>, m: Meaning<R>, a: Access,
                              b: Access) {
    && a.symbol == b.symbol && (a.isWrite || b.isWrite)
    && (if second then OfKind(d, b.isWrite, a.isWrite) else OfKind(d, a.isWrite, b.isWrite))
    && d.Valid() && HoldsOne(d, m(relation(a, b)), second)
  }

  ghost predicate FromSome<R>(d: DependenceVector, second: bool, relation: Relations<R>, m: Meaning<R>,
                              access1: seq<Access>, access2: seq<Access>) {
    exists k: nat, l: nat :: k < |access1| && l < |access2| && FromPair(d, second, relation, m, access1[k], access2[l])
  }

  ghost predicate AllSourced<R>(first: seq<DependenceVector>, second: seq<DependenceVector>, relation: Relations<R>,
                                m: Meaning<R>, access1: seq<Access>, access2: seq<Access>) {
    && (forall d :: d in first ==> FromSome(d, false, relation, m, access1, access2))
    && (forall d :: d in second ==> FromSome(d, true, relation, m, access1, access2))
  }

  lemma PairSourced<R(!new)>(o: Omega<R>, relation: Relations<R>, m: Meaning<R>, n: nat, a: Access, b: Access, vs: Pair)
    requires PairResult(o, relation, m, n, a, b, vs)
    ensures forall d :: d in vs.0 ==> FromPair(d, false, relation, m, a, b)
    ensures forall d :: d in vs.1 ==> FromPair(d, true, relation, m, a, b)
  {
    forall d | d in vs.0
      ensures FromPair(d, false, relation, m, a, b)
    {
      var k :| 0 <= k < |vs.0| && vs.0[k] == d;
    }
    forall d | d in vs.1
      ensures FromPair(d, true, relation, m, a, b)
    {
      var k :| 0 <= k < |vs.1| && vs.1[k] == d;
    }
  }

  lemma CollectedIsSourced<R(!new)>(o: Omega<R>, relation: Relations<R>, m: Meaning<R>, n: nat, access1: seq<Access>,
                                    access2: seq<Access>, order: seq<(nat, nat)>, found: map<(nat, nat), Pair>,
                                    first: seq<DependenceVector>, second: seq<DependenceVector>)
    requires Collected(o, relation, m, n, access1, access2, order, found, first, second)
    ensures AllSourced(first, second, relation, m, access1, access2)
  {
    forall d | d in first
      ensures FromSome(d, false, relation, m, access1, access2)
    {
      FlattenMember(order, FirstOf(found), d);
      var t :| 0 <= t < |order| && d in FirstOf(found)(order[t]);
      PairSourced(o, relation, m, n, access1[order[t].0], access2[order[t].1], found[order[t]]);
    }
    forall d | d in second
      ensures FromSome(d, true, relation, m, access1, access2)
    {
      FlattenMember(order, SecondOf(found), d);
      var t :| 0 <= t < |order| && d in SecondOf(found)(order[t]);
      PairSourced(o, relation, m, n, access1[order[t].0], access2[order[t].1], found[order[t]]);
    }
  }

  /** Every vector found between two statements comes from a pair of their references. */
  lemma TestedIsSourced<R(!new)>(o: Omega<R>, relation: Relations<R>, m: Meaning<R>, n: nat, access1: seq<Access>,
                                 access2: seq<Access>, first: seq<DependenceVector>, second: seq<DependenceVector>)
    requires AllTested(o, relation, m, n, access1, access2, first, second)
    ensures AllSourced(first, second, relation, m, access1, access2)
  {
    var order, found :| Collected(o, relation, m, n, access1, access2, order, found, first, second)
      && ListsPairs(order, |access1|, 0, |access1|, |access2|, false, (k, l) => false);
    CollectedIsSourced(o, relation, m, n, access1, access2, order, found, first, second);
  }

  lemma SelfIsSourced<R(!new)>(o: Omega<R>, relation: Relations<R>, m: Meaning<R>, n: nat, access: seq<Access>,
                               reductions: Reductions, first: seq<DependenceVector>, second: seq<DependenceVector>)
    requires SelfTested(o, relation, m, n, access, reductions, first, second)
    ensures AllSourced(first, second, relation, m, access, access)
  {
    var order, found :| Collected(o, relation, m, n, access, access, order + reductions.late, found, first, second)
      && ListsPairs(order, |access|, |access|, |access|, |access|, true, reductions.held);
    CollectedIsSourced(o, relation, m, n, access, access, order + reductions.late, found, first, second);
  }
}
