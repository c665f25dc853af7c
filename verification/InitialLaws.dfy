/**
 The edges of the initial graph, said about the lists of the tests alone: edge (a, b)
 has the vectors found between the two statements, each as it is when every run
 respects it from a to b, reversed when that is refused from b to a. With the tests of
 two references: what every vector of the graph starts and ends with.
 */
module InitialLaws {
  import opened Lists
  import opened DependenceVectors
  import opened RelationVectors
  import opened DataTests
  import opened DependenceGraphs
  import opened LoopStates
  import opened LoopSafety
  import opened LoopFacts
  import opened SourceTrees
  import opened TreeOrder
  import opened DependenceOrder
  import opened Schedule
  import opened InitialGraph
  import opened InitialState
  import opened SourceMeaning

  /** No run violates the dependence, and it is no tie across the arms of an if. */
  ghost predicate InOrder(q: Query)
    requires q.Valid()
  {
    q.dv.scalar || (q.AlwaysRespected() && !q.TiesAcrossArms())
  }

  /** The vector d, found from statement i to statement j, is entered as it is. */
  ghost predicate Straight(nest: Nest, i: nat, j: nat, d: DependenceVector, before: bool)
    requires nest.Valid()
  {
    nest.Sound(Entry(i, j, d, before)) && InOrder(nest.Ask(Entry(i, j, d, before)))
  }

  /** What d, found from i to j, puts on edge (a, b). */
  ghost function Enters(nest: Nest, i: nat, j: nat, before: bool, a: nat, b: nat):
    DependenceVector -> seq<DependenceVector>
    requires nest.Valid()
  {
    (d: DependenceVector) =>
      if |d.lbounds| != |d.ubounds| then []
      else if Straight(nest, i, j, d, before) then (if a == i && b == j then [d] else [])
      else (if a == j && b == i then [d.Reversed()] else [])
  }

  /** The same for an entry. */
  ghost function EntryOn(nest: Nest, a: nat, b: nat): Entry -> seq<DependenceVector>
    requires nest.Valid()
  {
    (e: Entry) => Enters(nest, e.i, e.j, e.before, a, b)(e.d)
  }

  lemma EntersOne(nest: Nest, e: Entry, straight: bool, a: nat, b: nat)
    requires nest.Valid() && |e.d.lbounds| == |e.d.ubounds| && straight == Straight(nest, e.i, e.j, e.d, e.before)
    ensures EntryOn(nest, a, b)(e) ==
            if straight then (if a == e.i && b == e.j then [e.d] else [])
            else (if a == e.j && b == e.i then [e.d.Reversed()] else [])
  {
    var f := Enters(nest, e.i, e.j, e.before, a, b);
    assert EntryOn(nest, a, b)(e) == f(e.d);
    assert f(e.d) ==
           if straight then (if a == e.i && b == e.j then [e.d] else [])
           else (if a == e.j && b == e.i then [e.d.Reversed()] else []);
  }

  lemma ConnectEdge(g: DependenceGraph, i: nat, j: nat, d: DependenceVector, a: nat, b: nat)
    requires i < |g.vertex| && j < |g.vertex| && a < |g.vertex|
    ensures g.Connect(i, j, [d]).Edge(a, b) == g.Edge(a, b) + if a == i && b == j then [d] else []
  {
  }

  lemma EnteredEdge(nest: Nest, g: DependenceGraph, e: Entry, q: Query, a: nat, b: nat)
    requires nest.Valid() && nest.Sound(e) && q == nest.Ask(e) && |g.vertex| == |nest.paths| && a < |nest.paths|
    ensures Entered(g, e.i, e.j, q).Edge(a, b) == g.Edge(a, b) + EntryOn(nest, a, b)(e)
  {
    q.AllForwardIff();
    assert e == Entry(e.i, e.j, e.d, e.before);
    assert Accepts(q) <==> Straight(nest, e.i, e.j, e.d, e.before);
    assert q.dv == e.d && |e.d.lbounds| == |e.d.ubounds|;
    EntersOne(nest, e, Accepts(q), a, b);
    if Accepts(q) {
      ConnectEdge(g, e.i, e.j, e.d, a, b);
    } else {
      ConnectEdge(g, e.j, e.i, e.d.Reversed(), a, b);
    }
  }

  lemma {:induction false} EnterAllEdge(nest: Nest, es: seq<Entry>, g: DependenceGraph, a: nat, b: nat)
    requires nest.Valid() && nest.AllSound(es) && g == nest.EnterAll(es) && a < |nest.paths|
    ensures g.Edge(a, b) == Flatten(es, EntryOn(nest, a, b))
  {
    if es != [] {
      var rest, e := es[..|es| - 1], es[|es| - 1];
      EnterAllEdge(nest, rest, nest.EnterAll(rest), a, b);
      EnteredEdge(nest, nest.EnterAll(rest), e, nest.Ask(e), a, b);
    }
  }

  // ---------- The entries of one pair of statements ----------

  /** What both lists of statements i <= j put on edge (a, b). */
  ghost function PairOn(nest: Nest, i: nat, j: nat, a: nat, b: nat): seq<DependenceVector>
    requires nest.Valid()
  {
    Flatten(nest.tests(i, j).first, Enters(nest, i, j, true, a, b))
    + Flatten(nest.tests(i, j).second, Enters(nest, j, i, false, a, b))
  }

  lemma PairEdge(nest: Nest, i: nat, j: nat, a: nat, b: nat)
    requires nest.Valid()
    ensures Flatten(nest.PairEntries(i, j), EntryOn(nest, a, b)) == PairOn(nest, i, j, a, b)
    ensures !(a == i && b == j) && !(a == j && b == i) ==> PairOn(nest, i, j, a, b) == []
  {
    var t, f := nest.tests(i, j), EntryOn(nest, a, b);
    var first, second := nest.ListEntries(i, j, t.first, true), nest.ListEntries(j, i, t.second, false);
    FlattenAppend(first, second, f);
    FlattenAlike(first, t.first, f, Enters(nest, i, j, true, a, b));
    FlattenAlike(second, t.second, f, Enters(nest, j, i, false, a, b));
    if !(a == i && b == j) && !(a == j && b == i) {
      FlattenNothing(t.first, Enters(nest, i, j, true, a, b));
      FlattenNothing(t.second, Enters(nest, j, i, false, a, b));
    }
  }

  // The double loop as two tables: the entries of a pair, and of a row up to a statement.
  type Table = (nat, nat) -> seq<Entry>

  ghost function PairsOf(nest: Nest): Table {
    (i: nat, j: nat) => nest.PairEntries(i, j)
  }

  ghost function RowsOf(nest: Nest): Table {
    (i: nat, j: nat) => if i <= j then nest.RowEntries(i, j) else []
  }

  ghost predicate RowsFollow(pairs: Table, rows: Table) {
    && (forall i: nat :: rows(i, i) == [])
    && forall i: nat, j: nat {:trigger pairs(i, j)} :: i <= j ==> rows(i, j + 1) == rows(i, j) + pairs(i, j)
  }

  lemma NestRowsFollow(nest: Nest)
    ensures RowsFollow(PairsOf(nest), RowsOf(nest))
  {
  }

  /** Under f, the pair of statements low and high gives on, any other pair nothing. */
  ghost predicate ReadsPair(pairs: Table, low: nat, high: nat, f: Entry -> seq<DependenceVector>,
                            on: seq<DependenceVector>) {
    forall i: nat, j: nat :: i <= j ==> Flatten(pairs(i, j), f) == if i == low && j == high then on else []
  }

  lemma NestReadsPair(nest: Nest, a: nat, b: nat, low: nat, high: nat)
    requires nest.Valid() && low <= high && ((low == a && high == b) || (low == b && high == a))
    ensures ReadsPair(PairsOf(nest), low, high, EntryOn(nest, a, b), PairOn(nest, low, high, a, b))
  {
    forall i: nat, j: nat | i <= j
      ensures Flatten(PairsOf(nest)(i, j), EntryOn(nest, a, b)) ==
              if i == low && j == high then PairOn(nest, low, high, a, b) else []
    {
      PairEdge(nest, i, j, a, b);
    }
  }

  lemma {:induction false} RowReads(pairs: Table, rows: Table, i: nat, j: nat, low: nat, high: nat,
                                    f: Entry -> seq<DependenceVector>, on: seq<DependenceVector>)
    requires RowsFollow(pairs, rows) && low <= high && i <= j && ReadsPair(pairs, low, high, f, on)
    ensures Flatten(rows(i, j), f) == if i == low && high < j then on else []
  {
    if i < j {
      RowReads(pairs, rows, i, j - 1, low, high, f, on);
      FlattenAppend(rows(i, j - 1), pairs(i, j - 1), f);
      assert rows(i, (j - 1) + 1) == rows(i, j - 1) + pairs(i, j - 1);
    }
  }

  lemma RowsRead(nest: Nest, low: nat, high: nat, f: Entry -> seq<DependenceVector>, on: seq<DependenceVector>)
    requires low <= high < |nest.paths| && ReadsPair(PairsOf(nest), low, high, f, on)
    ensures Flatten(nest.Entries(), f) == on
  {
    var n := |nest.paths|;
    var steps := seq(n + 1, k requires 0 <= k <= n => nest.EntriesUpTo(k));
    var adds := seq(n, k requires 0 <= k < n => nest.RowEntries(k, n));
    NestRowsFollow(nest);
    forall k | 0 <= k < n
      ensures Flatten(adds[k], f) == if k == low then on else []
    {
      RowReads(PairsOf(nest), RowsOf(nest), k, n, low, high, f, on);
    }
    FlattenSteps(steps, adds, f, low, on, n);
  }

  /**
   Edge (a, b) of the initial graph: the vectors the tests found between the two
   statements, the first list and then the second, each as it is or reversed, and
   nothing else.
   */
  lemma InitialEdge(nest: Nest, g: DependenceGraph, a: nat, b: nat)
    requires nest.Valid() && nest.Found() && g == nest.Graph() && a < |nest.paths| && b < |nest.paths|
    ensures g.Edge(a, b) == if a <= b then PairOn(nest, a, b, a, b) else PairOn(nest, b, a, a, b)
  {
    nest.EntriesAreSound(|nest.paths|);
    EnterAllEdge(nest, nest.Entries(), g, a, b);
    var low, high := if a <= b then a else b, if a <= b then b else a;
    NestReadsPair(nest, a, b, low, high);
    RowsRead(nest, low, high, EntryOn(nest, a, b), PairOn(nest, low, high, a, b));
  }

  // ---------- What the vectors start and end with ----------

  /** Every vector on the lists of two statements comes from references of theirs. */
  ghost predicate Sourced<R(!new)>(s: Source<R>, m: Meaning<R>)
    requires s.Valid()
  {
    forall i: nat, j: nat :: i <= j < |s.access| ==> PairSourced(s, m, i, j)
  }

  ghost predicate PairSourced<R(!new)>(s: Source<R>, m: Meaning<R>, i: nat, j: nat)
    requires s.Valid() && i <= j < |s.access|
  {
    AllSourced(s.nest.tests(i, j).first, s.nest.tests(i, j).second, s.relation(i, j), m, s.access[i], s.access[j])
  }

  /** The lists of statements i < j, and of statement i with itself, are those of the tests. */
  ghost predicate TwoTested<R(!new)>(o: Omega<R>, s: Source<R>, m: Meaning<R>, i: nat, j: nat)
    requires s.Valid() && i < j < |s.access|
  {
    var t := s.nest.tests(i, j);
    AllTested(o, s.relation(i, j), m, s.nest.n, s.access[i], s.access[j], t.first, t.second)
  }

  ghost predicate OneTested<R(!new)>(o: Omega<R>, s: Source<R>, m: Meaning<R>, reductions: nat -> Reductions, i: nat)
    requires s.Valid() && i < |s.access|
  {
    var t := s.nest.tests(i, i);
    SelfTested(o, s.relation(i, i), m, s.nest.n, s.access[i], reductions(i), t.first, t.second)
  }

  lemma TwoSourced<R(!new)>(o: Omega<R>, s: Source<R>, m: Meaning<R>, i: nat, j: nat)
    requires s.Valid() && i < j < |s.access| && TwoTested(o, s, m, i, j)
    ensures PairSourced(s, m, i, j)
  {
    var t := s.nest.tests(i, j);
    TestedIsSourced(o, s.relation(i, j), m, s.nest.n, s.access[i], s.access[j], t.first, t.second);
  }

  lemma OneSourced<R(!new)>(o: Omega<R>, s: Source<R>, m: Meaning<R>, reductions: nat -> Reductions, i: nat)
    requires s.Valid() && i < |s.access| && OneTested(o, s, m, reductions, i)
    ensures PairSourced(s, m, i, i)
  {
    var t := s.nest.tests(i, i);
    SelfIsSourced(o, s.relation(i, i), m, s.nest.n, s.access[i], reductions(i), t.first, t.second);
  }

  lemma TwosSourced<R(!new)>(o: Omega<R>, s: Source<R>, m: Meaning<R>)
    requires s.Valid() && forall i: nat, j: nat :: i < j < |s.access| ==> TwoTested(o, s, m, i, j)
    ensures forall i: nat, j: nat :: i < j < |s.access| ==> PairSourced(s, m, i, j)
  {
    forall i: nat, j: nat | i < j < |s.access|
      ensures PairSourced(s, m, i, j)
    {
      TwoSourced(o, s, m, i, j);
    }
  }

  lemma OnesSourced<R(!new)>(o: Omega<R>, s: Source<R>, m: Meaning<R>, reductions: nat -> Reductions)
    requires s.Valid() && forall i: nat :: i < |s.access| ==> OneTested(o, s, m, reductions, i)
    ensures forall i: nat :: i < |s.access| ==> PairSourced(s, m, i, i)
  {
    forall i: nat | i < |s.access|
      ensures PairSourced(s, m, i, i)
    {
      OneSourced(o, s, m, reductions, i);
    }
  }

  /** What the tests of two references promise. */
  lemma TestsAreSourced<R(!new)>(o: Omega<R>, s: Source<R>, m: Meaning<R>, reductions: nat -> Reductions)
    requires s.Valid()
    requires forall i: nat, j: nat :: i < j < |s.access| ==> TwoTested(o, s, m, i, j)
    requires forall i: nat :: i < |s.access| ==> OneTested(o, s, m, reductions, i)
    ensures Sourced(s, m)
  {
    TwosSourced(o, s, m);
    OnesSourced(o, s, m, reductions);
    forall i: nat, j: nat | i <= j < |s.access|
      ensures PairSourced(s, m, i, j)
    {
      assert i < j || PairSourced(s, m, i, i);
    }
  }

  /** e goes from a reference of statement a to one of statement b, to one array, one of them writing. */
  ghost predicate Between<R>(s: Source<R>, a: nat, b: nat, e: DependenceVector)
    requires a < |s.access| && b < |s.access|
  {
    exists k: nat, l: nat ::
      k < |s.access[a]| && l < |s.access[b]| && BetweenReferences(s.access[a][k], s.access[b][l], e)
  }

  ghost predicate BetweenReferences(x: Access, y: Access, e: DependenceVector) {
    x.symbol == y.symbol && (x.isWrite || y.isWrite) && OfKind(e, x.isWrite, y.isWrite)
  }

  lemma ListBetween<R(!new)>(s: Source<R>, m: Meaning<R>, i: nat, j: nat, second: bool, d: DependenceVector)
    requires s.Valid() && Sourced(s, m) && i <= j < |s.access|
    requires d in (if second then s.nest.tests(i, j).second else s.nest.tests(i, j).first) && |d.lbounds| == |d.ubounds|
    ensures if second then Between(s, j, i, d) else Between(s, i, j, d)
    ensures if second then Between(s, i, j, d.Reversed()) else Between(s, j, i, d.Reversed())
  {
    assert PairSourced(s, m, i, j);
    assert FromSome(d, second, s.relation(i, j), m, s.access[i], s.access[j]);
    var k: nat, l: nat :| k < |s.access[i]| && l < |s.access[j]|
      && FromPair(d, second, s.relation(i, j), m, s.access[i][k], s.access[j][l]);
    var x, y := s.access[i][k], s.access[j][l];
    if second {
      assert BetweenReferences(y, x, d) && BetweenReferences(x, y, d.Reversed());
    } else {
      assert BetweenReferences(x, y, d) && BetweenReferences(y, x, d.Reversed());
    }
  }

  /** What is on the edge is a vector of the list, as it is or reversed. */
  lemma EntersSource(nest: Nest, i: nat, j: nat, before: bool, a: nat, b: nat, ds: seq<DependenceVector>,
                     f: DependenceVector -> seq<DependenceVector>, e: DependenceVector)
    returns (d: DependenceVector)
    requires nest.Valid() && f == Enters(nest, i, j, before, a, b) && e in Flatten(ds, f)
    ensures d in ds && |d.lbounds| == |d.ubounds|
    ensures (e == d && a == i && b == j) || (e == d.Reversed() && a == j && b == i)
  {
    FlattenMember(ds, f, e);
    var k :| 0 <= k < |ds| && e in f(ds[k]);
    d := ds[k];
    assert f(d) != [];
  }

  lemma FirstBetween<R(!new)>(s: Source<R>, m: Meaning<R>, i: nat, j: nat, a: nat, b: nat, e: DependenceVector)
    requires s.Valid() && Sourced(s, m) && i <= j < |s.access| && a < |s.access| && b < |s.access|
    requires e in Flatten(s.nest.tests(i, j).first, Enters(s.nest, i, j, true, a, b))
    ensures Between(s, a, b, e)
  {
    var ds, f := s.nest.tests(i, j).first, Enters(s.nest, i, j, true, a, b);
    var d := EntersSource(s.nest, i, j, true, a, b, ds, f, e);
    ListBetween(s, m, i, j, false, d);
  }

  lemma SecondBetween<R(!new)>(s: Source<R>, m: Meaning<R>, i: nat, j: nat, a: nat, b: nat, e: DependenceVector)
    requires s.Valid() && Sourced(s, m) && i <= j < |s.access| && a < |s.access| && b < |s.access|
    requires e in Flatten(s.nest.tests(i, j).second, Enters(s.nest, j, i, false, a, b))
    ensures Between(s, a, b, e)
  {
    var ds, f := s.nest.tests(i, j).second, Enters(s.nest, j, i, false, a, b);
    var d := EntersSource(s.nest, j, i, false, a, b, ds, f, e);
    ListBetween(s, m, i, j, true, d);
  }

  /** Every vector on edge (a, b) starts with what a reference of a does and ends with what one of b does. */
  lemma EdgeVectorKind<R(!new)>(s: Source<R>, m: Meaning<R>, g: DependenceGraph, a: nat, b: nat, e: DependenceVector)
    requires s.Valid() && Sourced(s, m) && g == s.nest.Graph() && a < |s.access| && b < |s.access|
    requires e in g.Edge(a, b)
    ensures Between(s, a, b, e)
  {
    var i, j := if a <= b then a else b, if a <= b then b else a;
    InitialEdge(s.nest, g, a, b);
    if e in Flatten(s.nest.tests(i, j).first, Enters(s.nest, i, j, true, a, b)) {
      FirstBetween(s, m, i, j, a, b, e);
    } else {
      SecondBetween(s, m, i, j, a, b, e);
    }
  }

  // ---------- Lexical constants ----------

  /** The nodes of a list with every if opened: what takes up one lexical position each. */
  function Opened(ts: seq<Tree>): seq<Tree>
    decreases ts
  {
    if ts == [] then [] else Opened(ts[..|ts| - 1]) + OpenedNode(ts[|ts| - 1])
  }

  function OpenedNode(t: Tree): seq<Tree>
    decreases t
  {
    if t.content.If? then Opened(t.children) else [t]
  }

  lemma {:induction false} SlotsAreOpened(ts: seq<Tree>)
    ensures Slots(ts) == |Opened(ts)|
    decreases ts
  {
    if ts != [] {
      SlotsAreOpened(ts[..|ts| - 1]);
      if ts[|ts| - 1].content.If? {
        SlotsAreOpened(ts[|ts| - 1].children);
      }
    }
  }

  /** The first node on the way to the statement that is no if, and the way on from there. */
  ghost function OuterNode(ts: seq<Tree>, p: seq<nat>): Tree
    requires Address(ts, p)
    decreases |p|
  {
    if ts[p[0]].content.If? then OuterNode(ts[p[0]].children, p[1..]) else ts[p[0]]
  }

  lemma {:induction false} OpenedAt(ts: seq<Tree>, i: nat, k: nat)
    requires i < |ts| && k < |OpenedNode(ts[i])|
    ensures Slots(ts[..i]) + k < |Opened(ts)| && Opened(ts)[Slots(ts[..i]) + k] == OpenedNode(ts[i])[k]
    decreases |ts|
  {
    var last := |ts| - 1;
    SlotsAreOpened(ts[..last]);
    if i < last {
      OpenedAt(ts[..last], i, k);
      assert ts[..last][..i] == ts[..i];
    }
  }

  /** The first lexical constant of a statement is the position of its outermost node, once ifs are opened. */
  lemma {:induction false} CounterIsPosition(ts: seq<Tree>, p: seq<nat>, start: int)
    requires Address(ts, p)
    ensures var k := Counter(ts, p, start, 0) - start;
            0 <= k < |Opened(ts)| && Opened(ts)[k] == OuterNode(ts, p)
    decreases |p|
  {
    var t := ts[p[0]];
    if t.content.If? {
      var here := start + Slots(ts[..p[0]]);
      CounterIsPosition(t.children, p[1..], here);
      OpenedAt(ts, p[0], Counter(t.children, p[1..], here, 0) - here);
    } else {
      OpenedAt(ts, p[0], 0);
    }
  }

  /** The way to the statement behind its outermost node. */
  ghost function Below(ts: seq<Tree>, p: seq<nat>): (q: seq<nat>)
    requires Address(ts, p)
    ensures OuterNode(ts, p).content.Loop? ==> Address(OuterNode(ts, p).children, q)
    ensures !OuterNode(ts, p).content.If?
    decreases |p|
  {
    if ts[p[0]].content.If? then Below(ts[p[0]].children, p[1..]) else p[1..]
  }

  /** The constants behind the outermost loop are those of the loop's body, counted from zero. */
  lemma {:induction false} CounterInside(ts: seq<Tree>, p: seq<nat>, start: int, k: nat)
    requires Address(ts, p)
    ensures Counter(ts, p, start, k + 1) ==
            if OuterNode(ts, p).content.Loop? then Counter(OuterNode(ts, p).children, Below(ts, p), 0, k) else 0
    decreases |p|
  {
    var t := ts[p[0]];
    if t.content.If? {
      CounterInside(t.children, p[1..], start + Slots(ts[..p[0]]), k);
    }
  }

  // ---------- Parallel tags ----------

  /** No state of a run that starts at the initial state has a parallel tag. */
  lemma NoRunIsTagged(nest: Nest, states: seq<LoopState>, ops: seq<Op>, k: nat)
    requires nest.Valid() && nest.Found() && IsRun(states, ops) && k <= |ops| && states[0] == nest.State()
    ensures Untagged(states[k])
  {
    RunKeepsUntagged(states, ops, k);
  }
}
