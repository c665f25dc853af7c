/**
 The state a nest starts in: identity iteration maps (chill/loop.cc:1062-1088)
 and the graph of the double loop over statements (chill/loop.cc:1296-1343). Runs
 of transformations from there keep every pair of the source covered.
 */
module InitialState {
  import opened Lists
  import opened DependenceVectors
  import opened RelationVectors
  import opened DependenceGraphs
  import opened Execution
  import opened Affine
  import opened LoopStates
  import opened LoopSafety
  import opened SourceTrees
  import opened IrNodes
  import opened TreeOrder
  import opened DependenceOrder
  import opened Schedule
  import opened InitialGraph

  // The two lists test_data_dependences gives for statements i and j, i first: vectors from i to j, and from j to i.
  datatype Tested = Tested(first: seq<DependenceVector>, second: seq<DependenceVector>)

  // One vector to enter: between statements i and j, before if i comes first in the text or is the same.
  datatype Entry = Entry(i: nat, j: nat, d: DependenceVector, before: bool)

  // A control tree, its statements in textual order, and what the tests found between them.
  datatype Nest = Nest(ts: seq<Tree>, paths: seq<seq<nat>>, tests: (nat, nat) -> Tested, n: nat) {
    ghost predicate Valid() {
      && Paired(ts) && Fits(ts, n)
      && (forall i :: 0 <= i < |paths| ==> Address(ts, paths[i]))
      && (forall i, j :: 0 <= i < j < |paths| ==> LexicallyBefore(paths[i], paths[j]))
    }

    /** The entry is between two statements of the nest, and its vector one that relation2dependences returns. */
    ghost predicate Sound(e: Entry) {
      && e.i < |paths| && e.j < |paths| && (if e.before then e.i <= e.j else e.j <= e.i)
      && Produced(e.d, n, !e.before)
    }

    ghost predicate AllSound(es: seq<Entry>) {
      forall k :: 0 <= k < |es| ==> Sound(es[k])
    }

    /** The question is_dependence_valid answers about an entry. */
    ghost function Ask(e: Entry): (q: Query)
      requires Valid() && Sound(e)
      ensures Proper(q) && (q.p == q.q <==> e.i == e.j)
    {
      CommonLoopsBound(ts, paths[e.i], paths[e.j]);
      DepthFits(ts, paths[e.i], n);
      DepthFits(ts, paths[e.j], n);
      TextOrderTotal(ts, paths[e.i], paths[e.j]);
      Query(ts, paths[e.i], paths[e.j], e.d, e.before)
    }

    // ---------- Entering vectors one after the other ----------

    function NoEdges(): (g: DependenceGraph)
      ensures |g.vertex| == |paths|
    {
      DependenceGraph(n, seq(|paths|, _ => map[]))
    }

    ghost function EnterAll(es: seq<Entry>): (g: DependenceGraph)
      requires Valid() && AllSound(es)
      ensures |g.vertex| == |paths| && g.numDim == n
    {
      if es == [] then NoEdges()
      else
        var e := es[|es| - 1];
        Entered(EnterAll(es[..|es| - 1]), e.i, e.j, Ask(e))
    }

    /** Every edge of h has at least what it has in g. */
    ghost predicate Grows(g: DependenceGraph, h: DependenceGraph) {
      forall a, b, d :: d in g.Edge(a, b) ==> d in h.Edge(a, b)
    }

    lemma NoEdgesFit(g: DependenceGraph)
      requires g == NoEdges()
      ensures g.Valid() && g.Fits(n)
    {
    }

    lemma ConnectGrows(g: DependenceGraph, i: nat, j: nat, d: DependenceVector)
      requires i < |g.vertex| && j < |g.vertex| && g.Valid() && g.Fits(n)
      requires d.Valid() && (d.IsData() ==> |d.lbounds| == n)
      ensures Grows(g, g.Connect(i, j, [d])) && d in g.Connect(i, j, [d]).Edge(i, j)
      ensures g.Connect(i, j, [d]).Valid() && g.Connect(i, j, [d]).Fits(n)
    {
      var h := g.Connect(i, j, [d]);
      assert h.vertex[i][j] == g.Edge(i, j) + [d];
      g.EdgeIsValid(i, j);
      forall a: nat, b: int | a < |h.vertex| && b in h.vertex[a]
        ensures h.ValidEdge(a, b)
      {
        if a != i || b != j {
          assert g.ValidEdge(a, b);
        }
      }
      forall a: int, b: int, k: int | 0 <= k < |h.Edge(a, b)| && h.Edge(a, b)[k].IsData()
        ensures |h.Edge(a, b)[k].lbounds| == |h.Edge(a, b)[k].ubounds| == n
      {
        if a != i || b != j {
          assert h.Edge(a, b) == g.Edge(a, b);
        }
      }
    }

    /** One more vector: nothing is lost, and it is on its edge. */
    lemma EnteredGrows(g: DependenceGraph, i: nat, j: nat, q: Query, h: DependenceGraph)
      requires i < |g.vertex| && j < |g.vertex| && g.Valid() && g.Fits(n) && Proper(q) && |q.dv.lbounds| == n
      requires h == Entered(g, i, j, q)
      ensures h.Valid() && h.Fits(n) && Grows(g, h) && OnEdge(h, i, j, q)
    {
      ReversedMeaning(q.dv);
      ConnectGrows(g, i, j, q.dv);
      ConnectGrows(g, j, i, q.dv.Reversed());
    }

    lemma OnEdgeGrows(g: DependenceGraph, h: DependenceGraph, i: nat, j: nat, q: Query)
      requires Grows(g, h) && q.Valid() && OnEdge(g, i, j, q)
      ensures OnEdge(h, i, j, q)
    {
    }

    /** Entering the last one. */
    lemma LastEntered(es: seq<Entry>, f: DependenceGraph, g: DependenceGraph, e: Entry, q: Query)
      requires Valid() && AllSound(es) && es != [] && e == es[|es| - 1] && q == Ask(e)
      requires f == EnterAll(es[..|es| - 1]) && f.Valid() && f.Fits(n) && g == EnterAll(es)
      ensures g.Valid() && g.Fits(n) && Grows(f, g) && OnEdge(g, e.i, e.j, q)
    {
      EnteredGrows(f, e.i, e.j, q, g);
    }

    lemma {:induction false} EnteredIsValid(es: seq<Entry>, g: DependenceGraph)
      requires Valid() && AllSound(es) && g == EnterAll(es)
      ensures g.Valid() && g.Fits(n)
    {
      if es == [] {
        NoEdgesFit(g);
      } else {
        var f := EnterAll(es[..|es| - 1]);
        EnteredIsValid(es[..|es| - 1], f);
        LastEntered(es, f, g, es[|es| - 1], Ask(es[|es| - 1]));
      }
    }

    /** Every vector is on the edge is_dependence_valid chose for it. */
    lemma {:induction false} AllEntered(es: seq<Entry>, k: nat, g: DependenceGraph, e: Entry, q: Query)
      requires Valid() && AllSound(es) && g == EnterAll(es) && k < |es| && e == es[k] && q == Ask(e)
      ensures OnEdge(g, e.i, e.j, q)
    {
      var rest := es[..|es| - 1];
      var f := EnterAll(rest);
      EnteredIsValid(rest, f);
      if k == |rest| {
        LastEntered(es, f, g, e, q);
      } else {
        LastEntered(es, f, g, es[|rest|], Ask(es[|rest|]));
        AllEntered(rest, k, f, e, q);
        OnEdgeGrows(f, g, e.i, e.j, q);
      }
    }

    // ---------- The order of the double loop ----------

    function ListEntries(i: nat, j: nat, ds: seq<DependenceVector>, before: bool): (es: seq<Entry>)
      ensures |es| == |ds|
    {
      seq(|ds|, k requires 0 <= k < |ds| => Entry(i, j, ds[k], before))
    }

    /** Both lists for statements i and j. */
    function PairEntries(i: nat, j: nat): seq<Entry> {
      ListEntries(i, j, tests(i, j).first, true) + ListEntries(j, i, tests(i, j).second, false)
    }

    /** Statement i with each statement from itself up to before j. */
    function RowEntries(i: nat, j: nat): seq<Entry>
      requires i <= j
    {
      if i == j then [] else RowEntries(i, j - 1) + PairEntries(i, j - 1)
    }

    function EntriesUpTo(i: nat): seq<Entry>
      requires i <= |paths|
    {
      if i == 0 then [] else EntriesUpTo(i - 1) + RowEntries(i - 1, |paths|)
    }

    function Entries(): seq<Entry> {
      EntriesUpTo(|paths|)
    }

    lemma ListMember(i: nat, j: nat, ds: seq<DependenceVector>, before: bool, d: DependenceVector)
      requires d in ds
      ensures Entry(i, j, d, before) in ListEntries(i, j, ds, before)
    {
      var k :| 0 <= k < |ds| && ds[k] == d;
      assert ListEntries(i, j, ds, before)[k] == Entry(i, j, d, before);
    }

    lemma {:induction false} RowMember(i: nat, j: nat, m: nat, e: Entry)
      requires i <= j < m && e in PairEntries(i, j)
      ensures e in RowEntries(i, m)
    {
      if j < m - 1 {
        RowMember(i, j, m - 1, e);
      }
    }

    lemma {:induction false} EntryMember(i: nat, m: nat, e: Entry)
      requires i < m <= |paths| && e in RowEntries(i, |paths|)
      ensures e in EntriesUpTo(m)
    {
      if i < m - 1 {
        EntryMember(i, m - 1, e);
      }
    }

    /** Every vector the tests found becomes an entry. */
    lemma FoundIsEntered(i: nat, j: nat, d: DependenceVector)
      requires i <= j < |paths|
      ensures d in tests(i, j).first ==> Entry(i, j, d, true) in Entries()
      ensures d in tests(i, j).second ==> Entry(j, i, d, false) in Entries()
    {
      if d in tests(i, j).first {
        ListMember(i, j, tests(i, j).first, true, d);
        RowMember(i, j, |paths|, Entry(i, j, d, true));
        EntryMember(i, |paths|, Entry(i, j, d, true));
      }
      if d in tests(i, j).second {
        ListMember(j, i, tests(i, j).second, false, d);
        RowMember(i, j, |paths|, Entry(j, i, d, false));
        EntryMember(i, |paths|, Entry(j, i, d, false));
      }
    }

    /** What the tests found are vectors of the forms relation2dependences returns. */
    ghost predicate Found() {
      forall i: nat, j: nat :: i <= j < |paths| ==> FoundBetween(i, j)
    }

    ghost predicate FoundBetween(i: nat, j: nat) {
      AllProduced(tests(i, j).first, n, false) && AllProduced(tests(i, j).second, n, true)
    }

    lemma PairIsSound(i: nat, j: nat)
      requires Found() && i <= j < |paths|
      ensures AllSound(PairEntries(i, j))
    {
      assert FoundBetween(i, j);
    }

    lemma {:induction false} RowIsSound(i: nat, j: nat)
      requires Found() && i <= j <= |paths|
      ensures AllSound(RowEntries(i, j))
    {
      if i < j {
        RowIsSound(i, j - 1);
        PairIsSound(i, j - 1);
      }
    }

    lemma {:induction false} EntriesAreSound(i: nat)
      requires Found() && i <= |paths|
      ensures AllSound(EntriesUpTo(i))
    {
      if i > 0 {
        EntriesAreSound(i - 1);
        RowIsSound(i - 1, |paths|);
      }
    }

    ghost function Graph(): (g: DependenceGraph)
      requires Valid() && Found()
      ensures |g.vertex| == |paths| && g.numDim == n
    {
      EntriesAreSound(|paths|);
      EnterAll(Entries())
    }

    lemma GraphIsValid(g: DependenceGraph)
      requires Valid() && Found() && g == Graph()
      ensures g.Valid() && g.Fits(n)
    {
      EntriesAreSound(|paths|);
      EnteredIsValid(Entries(), g);
    }

    lemma EntryIsOnEdge(e: Entry, g: DependenceGraph, q: Query)
      requires Valid() && Found() && e in Entries() && Sound(e) && g == Graph() && q == Ask(e)
      ensures OnEdge(g, e.i, e.j, q)
    {
      EntriesAreSound(|paths|);
      var es := Entries();
      var k :| 0 <= k < |es| && es[k] == e;
      AllEntered(es, k, g, e, q);
    }

    // ---------- The state ----------

    /** The lexical constants of statement i. */
    ghost function Order(i: nat): (order: seq<int>)
      requires Valid() && i < |paths|
      ensures |order| == n + 1
    {
      seq(n + 1, k requires 0 <= k <= n => Counter(ts, paths[i], 0, k))
    }

    ghost function State(): LoopState
      requires Valid() && Found()
    {
      LoopState(
        seq(|paths|, i requires 0 <= i < |paths| =>
          Statement(Identity(n), seq(n, l => LoopLevel(l, 0)), Order(i))),
        Graph(), n)
    }

    lemma StateIsValid()
      requires Valid() && Found()
      ensures State().Valid()
    {
      GraphIsValid(Graph());
    }
  }

  function Identity(n: nat): (rows: seq<Row>)
    ensures |rows| == n && IsMap(rows, n)
  {
    seq(n, l => Row(seq(n, k => if k == l then 1 else 0), 0))
  }

  lemma {:induction false} UnitDot(n: nat, l: nat, x: seq<int>, k: nat)
    requires l < n == |x| && k <= n
    ensures Dot(Identity(n)[l].coefs, x, k) == if l < k then x[l] else 0
  {
    if k > 0 {
      UnitDot(n, l, x, k - 1);
    }
  }

  lemma IdentityImage(x: seq<int>)
    ensures Image(Identity(|x|), x) == x
  {
    forall l | 0 <= l < |x|
      ensures Value(Identity(|x|)[l], x) == x[l]
    {
      UnitDot(|x|, l, x, |x|);
    }
  }

  lemma TwoFurther(a: int, b: int, s: seq<int>, m: nat)
    requires m < |s| + 2
    ensures ([a] + ([b] + s))[m] == if m == 0 then a else if m == 1 then b else s[m - 2]
  {
  }

  lemma LoopStampParts(here: int, u: seq<int>, s: seq<int>, r: seq<int>, n: nat, k: nat)
    requires 0 < |u| <= n && |s| == 2 * n - 1 && k <= n && r == [here] + ([u[0]] + s)
    ensures |r| == 2 * n + 1 && r[2 * k] == if k == 0 then here else s[2 * k - 2]
    ensures k < n ==> r[2 * k + 1] == if k == 0 then u[0] else s[2 * k - 1]
    ensures 0 < k < n ==> Padded(u, n)[k] == Padded(u[1..], n - 1)[k - 1]
  {
    TwoFurther(here, u[0], s, 2 * k);
    if k < n {
      TwoFurther(here, u[0], s, 2 * k + 1);
    }
  }

  /** The lexical counter of the statement at p before loop k, zero past its loops. */
  ghost function Counter(ts: seq<Tree>, p: seq<nat>, start: int, k: nat): int
    requires Address(ts, p)
    decreases |p|
  {
    var t, here := ts[p[0]], start + Slots(ts[..p[0]]);
    if t.content.If? then Counter(t.children, p[1..], here, k)
    else if k == 0 then here
    else if t.content.Loop? then Counter(t.children, p[1..], 0, k - 1)
    else 0
  }

  /** A stamp has the loop values at its odd positions, and counters of the statement at its even ones. */
  lemma {:induction false} StampParts(ts: seq<Tree>, p: seq<nat>, u: seq<int>, start: int, n: nat, k: nat, r: seq<int>)
    requires Address(ts, p) && |u| == Depth(ts, p) && Fits(ts, n) && k <= n
    requires r == Stamp(ts, p, u, start, n)
    ensures |u| <= n && r[2 * k] == Counter(ts, p, start, k)
    ensures k < n ==> r[2 * k + 1] == Padded(u, n)[k]
    decreases |p|
  {
    DepthFits(ts, p, n);
    var t, here := ts[p[0]], start + Slots(ts[..p[0]]);
    assert FitsTree(t, n);
    if t.content.Loop? {
      var s := Stamp(t.children, p[1..], u[1..], 0, n - 1);
      LoopStampParts(here, u, s, r, n, k);
      if k > 0 {
        StampParts(t.children, p[1..], u[1..], 0, n - 1, k - 1, s);
      }
    } else if t.content.If? {
      StampParts(t.children, p[1..], u, here, n, k, r);
    }
  }

  lemma {:induction false} DepthFits(ts: seq<Tree>, p: seq<nat>, n: nat)
    requires Address(ts, p) && Fits(ts, n)
    ensures Depth(ts, p) <= n
    decreases |p|
  {
    if |p| > 1 {
      assert FitsTree(ts[p[0]], n);
      DepthFits(ts[p[0]].children, p[1..], n - LoopCount(ts[p[0]]));
    }
  }

  // ---------- The double loop (chill/loop.cc:1304-1343) ----------

  /** Entering one more vector extends the entries by one. */
  lemma EnterNext(nest: Nest, es: seq<Entry>, e: Entry)
    requires nest.Valid() && nest.AllSound(es) && nest.Sound(e)
    ensures nest.AllSound(es + [e])
    ensures nest.EnterAll(es + [e]) == Entered(nest.EnterAll(es), e.i, e.j, nest.Ask(e))
  {
    assert (es + [e])[..|es|] == es;
  }

  /** The linked nodes are the tree of the nest, its loops numbered, and nodes those of its statements. */
  ghost predicate Linked(nest: Nest, nodes: seq<IrNode>, roots: seq<IrNode>)
    reads (set n | n in roots), Footprint(roots)
  {
    && AreTrees(roots, null, nest.ts) && Numbered(nest.ts, 0) && |nodes| == |nest.paths|
    && forall i :: 0 <= i < |nodes| ==> NodeAt(roots, nest.ts, nest.paths[i], nodes[i])
  }

  /** g is what entering es gives. */
  ghost predicate HasEntered(nest: Nest, g: DependenceGraph, es: seq<Entry>) {
    nest.Valid() && nest.AllSound(es) && g == nest.EnterAll(es)
  }

  lemma NothingYet<T>(s: seq<T>, t: seq<T>)
    ensures s + t[..0] == s && s + [] == s
  {
  }

  lemma AppendNext<T>(s: seq<T>, t: seq<T>, k: nat)
    requires k < |t|
    ensures s + t[..k] + [t[k]] == s + t[..k + 1]
  {
  }

  lemma SoundParts(nest: Nest, s: seq<Entry>, t: seq<Entry>, all: seq<Entry>)
    requires nest.AllSound(all) && all == s + t
    ensures nest.AllSound(s) && nest.AllSound(t)
  {
    assert forall k :: 0 <= k < |s| ==> all[k] == s[k];
    assert forall k :: 0 <= k < |t| ==> all[|s| + k] == t[k];
  }

  /** Entering one list after the entries es; all names the entries afterwards. */
  method EnterList(nest: Nest, nodes: seq<IrNode>, ghost roots: seq<IrNode>, g: DependenceGraph, ghost es: seq<Entry>,
                   i: nat, j: nat, ds: seq<DependenceVector>, before: bool, ghost all: seq<Entry>)
    returns (dep: DependenceGraph)
    requires Linked(nest, nodes, roots) && i < |nodes| && j < |nodes|
    requires HasEntered(nest, g, es) && nest.AllSound(all) && all == es + nest.ListEntries(i, j, ds, before)
    ensures HasEntered(nest, dep, all)
  {
    Settled(roots, nest.ts);
    ghost var more := nest.ListEntries(i, j, ds, before);
    SoundParts(nest, es, more, all);
    dep := g;
    NothingYet(es, more);
    for k := 0 to |ds|
      invariant HasEntered(nest, dep, es + more[..k])
    {
      EnterNext(nest, es + more[..k], more[k]);
      AppendNext(es, more, k);
      dep := Enter(dep, i, j, nodes[i], nodes[j], ds[k], before, roots, nest.Ask(more[k]));
    }
    WholePrefix(more);
  }

  method EnterPair(nest: Nest, nodes: seq<IrNode>, ghost roots: seq<IrNode>, g: DependenceGraph, ghost es: seq<Entry>,
                   i: nat, j: nat, ghost all: seq<Entry>)
    returns (dep: DependenceGraph)
    requires Linked(nest, nodes, roots) && i <= j < |nodes|
    requires HasEntered(nest, g, es) && nest.AllSound(all) && all == es + nest.PairEntries(i, j)
    ensures HasEntered(nest, dep, all)
  {
    Settled(roots, nest.ts);
    var t := nest.tests(i, j);
    ghost var a, b := nest.ListEntries(i, j, t.first, true), nest.ListEntries(j, i, t.second, false);
    ghost var mid := es + a;
    AppendAssociates(es, a, b);
    SoundParts(nest, mid, b, all);
    dep := EnterList(nest, nodes, roots, g, es, i, j, t.first, true, mid);
    dep := EnterList(nest, nodes, roots, dep, mid, j, i, t.second, false, all);
  }

  // Ghost sequences name the entries so far: row[j] when row i is done up to statement j, steps[i] when i rows are
  // done.

  ghost predicate PairFollows(nest: Nest, i: nat, row: seq<seq<Entry>>, j: nat) {
    i <= j < |nest.paths| && j + 1 < |row| && nest.AllSound(row[j + 1]) && row[j + 1] == row[j] + nest.PairEntries(i, j)
  }

  ghost predicate RowFollows(nest: Nest, steps: seq<seq<Entry>>, i: nat) {
    && i < |nest.paths| && i + 1 < |steps| && nest.AllSound(steps[i])
    && steps[i + 1] == steps[i] + nest.RowEntries(i, |nest.paths|)
  }

  /** Statement i with statements i, i + 1, ... */
  method EnterRow(nest: Nest, nodes: seq<IrNode>, ghost roots: seq<IrNode>, g: DependenceGraph, i: nat,
                  ghost row: seq<seq<Entry>>)
    returns (dep: DependenceGraph)
    requires Linked(nest, nodes, roots) && i < |nodes| && |row| == |nodes| + 1
    requires forall j :: i <= j < |nodes| ==> PairFollows(nest, i, row, j)
    requires HasEntered(nest, g, row[i])
    ensures HasEntered(nest, dep, row[|nodes|])
  {
    Settled(roots, nest.ts);
    dep := g;
    for j := i to |nodes|
      invariant HasEntered(nest, dep, row[j])
    {
      assert PairFollows(nest, i, row, j);
      dep := EnterPair(nest, nodes, roots, dep, row[j], i, j, row[j + 1]);
    }
  }

  ghost function RowSteps(nest: Nest, i: nat, es: seq<Entry>): (row: seq<seq<Entry>>)
    ensures |row| == |nest.paths| + 1
  {
    seq(|nest.paths| + 1, j requires 0 <= j <= |nest.paths| => if j < i then [] else es + nest.RowEntries(i, j))
  }

  lemma SoundAppend(nest: Nest, s: seq<Entry>, t: seq<Entry>)
    requires nest.AllSound(s) && nest.AllSound(t)
    ensures nest.AllSound(s + t)
  {
  }

  lemma RowStepsFollow(nest: Nest, i: nat, es: seq<Entry>, j: nat, row: seq<seq<Entry>>)
    requires nest.Found() && nest.AllSound(es) && i <= j < |nest.paths| && row == RowSteps(nest, i, es)
    ensures PairFollows(nest, i, row, j)
  {
    nest.RowIsSound(i, j + 1);
    SoundAppend(nest, es, nest.RowEntries(i, j + 1));
    AppendAssociates(es, nest.RowEntries(i, j), nest.PairEntries(i, j));
  }

  lemma RowStepsEnds(nest: Nest, steps: seq<seq<Entry>>, i: nat, row: seq<seq<Entry>>)
    requires nest.Found() && RowFollows(nest, steps, i) && row == RowSteps(nest, i, steps[i])
    ensures row[i] == steps[i] && row[|nest.paths|] == steps[i + 1]
    ensures forall j :: i <= j < |nest.paths| ==> PairFollows(nest, i, row, j)
  {
    NothingYet(steps[i], []);
    forall j | i <= j < |nest.paths|
      ensures PairFollows(nest, i, row, j)
    {
      RowStepsFollow(nest, i, steps[i], j, row);
    }
  }

  lemma NothingEntered(nest: Nest)
    requires nest.Valid()
    ensures HasEntered(nest, nest.NoEdges(), [])
  {
  }

  /** All rows. */
  method EnterRows(nest: Nest, nodes: seq<IrNode>, ghost roots: seq<IrNode>, ghost steps: seq<seq<Entry>>)
    returns (dep: DependenceGraph)
    requires nest.Valid() && nest.Found() && Linked(nest, nodes, roots)
    requires |steps| == |nodes| + 1 && steps[0] == []
    requires forall i :: 0 <= i < |nodes| ==> RowFollows(nest, steps, i)
    ensures HasEntered(nest, dep, steps[|nodes|])
  {
    Settled(roots, nest.ts);
    dep := nest.NoEdges();
    NothingEntered(nest);
    for i := 0 to |nodes|
      invariant HasEntered(nest, dep, steps[i])
    {
      assert RowFollows(nest, steps, i);
      ghost var row := RowSteps(nest, i, steps[i]);
      RowStepsEnds(nest, steps, i, row);
      dep := EnterRow(nest, nodes, roots, dep, i, row);
    }
  }

  ghost function Steps(nest: Nest): (steps: seq<seq<Entry>>)
    ensures |steps| == |nest.paths| + 1
  {
    seq(|nest.paths| + 1, i requires 0 <= i <= |nest.paths| => nest.EntriesUpTo(i))
  }

  lemma StepsFollow(nest: Nest)
    requires nest.Found()
    ensures Steps(nest)[0] == [] && Steps(nest)[|nest.paths|] == nest.Entries()
    ensures forall i :: 0 <= i < |nest.paths| ==> RowFollows(nest, Steps(nest), i)
  {
    forall i | 0 <= i < |nest.paths|
      ensures RowFollows(nest, Steps(nest), i)
    {
      nest.EntriesAreSound(i);
    }
  }

  lemma AllAreEntered(nest: Nest, g: DependenceGraph, es: seq<Entry>)
    requires nest.Valid() && nest.Found() && HasEntered(nest, g, es) && es == nest.Entries()
    ensures g == nest.Graph()
  {
  }

  /** The graph of the initial state: no edges, then every vector the tests found, in the order of the loops. */
  method InitGraph(nest: Nest, nodes: seq<IrNode>, ghost roots: seq<IrNode>) returns (dep: DependenceGraph)
    requires nest.Valid() && nest.Found() && Linked(nest, nodes, roots)
    ensures dep == nest.Graph()
  {
    StepsFollow(nest);
    dep := EnterRows(nest, nodes, roots, Steps(nest));
    AllAreEntered(nest, dep, Steps(nest)[|nest.paths|]);
  }

  // ---------- What the initial state covers, and every run from it ----------

  /** The initial schedule of an instance is its stamp: iterations as they are, counters as constants. */
  lemma InitialSchedule(nest: Nest, i: nat, u: seq<int>, r: seq<int>)
    requires nest.Valid() && nest.Found() && i < |nest.paths| && |u| == Depth(nest.ts, nest.paths[i])
    requires r == Stamp(nest.ts, nest.paths[i], u, 0, nest.n)
    ensures |u| <= nest.n && nest.State().Valid() && Scheduled(nest.State(), i, Padded(u, nest.n)) == Padded(u, nest.n)
    ensures forall k :: 0 <= k <= nest.n ==> r[2 * k] == nest.State().stmt[i].order[k]
    ensures forall k :: 0 <= k < nest.n ==> r[2 * k + 1] == Scheduled(nest.State(), i, Padded(u, nest.n))[k]
  {
    nest.StateIsValid();
    DepthFits(nest.ts, nest.paths[i], nest.n);
    IdentityImage(Padded(u, nest.n));
    forall k | 0 <= k <= nest.n
      ensures r[2 * k] == Counter(nest.ts, nest.paths[i], 0, k)
      ensures k < nest.n ==> r[2 * k + 1] == Padded(u, nest.n)[k]
    {
      StampParts(nest.ts, nest.paths[i], u, 0, nest.n, k, r);
    }
  }

  lemma InitialDistance(nest: Nest, i: nat, u: seq<int>, j: nat, w: seq<int>)
    requires nest.Valid() && nest.Found() && i < |nest.paths| && j < |nest.paths|
    requires |u| == Depth(nest.ts, nest.paths[i]) && |w| == Depth(nest.ts, nest.paths[j])
    ensures |u| <= nest.n && |w| <= nest.n && nest.State().Valid()
    ensures var p := Dependence(i, Padded(u, nest.n), j, Padded(w, nest.n));
            InSpace(nest.State(), p) && Distance(nest.State(), p) == FullDistance(u, w, nest.n)
  {
    InitialSchedule(nest, i, u, Stamp(nest.ts, nest.paths[i], u, 0, nest.n));
    InitialSchedule(nest, j, w, Stamp(nest.ts, nest.paths[j], w, 0, nest.n));
  }

  lemma InitiallyCovered(nest: Nest, i: nat, u: seq<int>, j: nat, w: seq<int>)
    requires nest.Valid() && nest.Found() && i < |nest.paths| && j < |nest.paths|
    requires |u| == Depth(nest.ts, nest.paths[i]) <= nest.n && |w| == Depth(nest.ts, nest.paths[j]) <= nest.n
    requires ListAdmits(nest.Graph().Edge(i, j), FullDistance(u, w, nest.n))
    ensures nest.State().Valid() && Covered(nest.State(), Dependence(i, Padded(u, nest.n), j, Padded(w, nest.n)))
  {
    InitialDistance(nest, i, u, j, w);
  }

  /** A vector was found between the statements of e, and the pair is at one of its distances in a run of the source. */
  ghost predicate SourcePair(nest: Nest, e: Entry, env: Env, u: seq<int>, w: seq<int>) {
    nest.Valid() && nest.Found() && e in nest.Entries() && nest.Sound(e) && Pair(nest.Ask(e), env, u, w)
  }

  /** p goes from the instance of the pair that runs first to the other one. */
  ghost predicate AsRun(nest: Nest, e: Entry, env: Env, u: seq<int>, w: seq<int>, p: Dependence)
    requires SourcePair(nest, e, env, u, w)
  {
    var run, a, b := WholeRun(nest.ts, env), Instance(nest.paths[e.i], u), Instance(nest.paths[e.j], w);
    || (Precedes(run, a, b) && p == Dependence(e.i, Padded(u, nest.n), e.j, Padded(w, nest.n)))
    || (Precedes(run, b, a) && p == Dependence(e.j, Padded(w, nest.n), e.i, Padded(u, nest.n)))
  }

  /** The initial graph covers every pair of the source, in the order in which it runs. */
  lemma SourceIsCovered(nest: Nest, e: Entry, env: Env, u: seq<int>, w: seq<int>, p: Dependence)
    requires SourcePair(nest, e, env, u, w) && AsRun(nest, e, env, u, w, p)
    ensures nest.State().Valid() && Covered(nest.State(), p)
  {
    var q, g := nest.Ask(e), nest.Graph();
    ProducedIsRightWay(q, !e.before);
    nest.EntryIsOnEdge(e, g, q);
    PairIsReachable(q, env, u, w);
    RightWayCovers(g, e.i, e.j, q, env, u, w);
    if p == Dependence(e.i, Padded(u, nest.n), e.j, Padded(w, nest.n))
      && Precedes(WholeRun(q.ts, env), Instance(q.p, u), Instance(q.q, w)) {
      InitiallyCovered(nest, e.i, u, e.j, w);
    } else {
      InitiallyCovered(nest, e.j, w, e.i, u);
    }
  }

  /**
   From source to transformed nest: after any run of transformations that does not
   throw, every pair of source instances at a distance the tests found is covered in
   the order in which the source runs it.
   */
  lemma EveryRunCoversTheSource(nest: Nest, e: Entry, env: Env, u: seq<int>, w: seq<int>, p: Dependence,
                                states: seq<LoopState>, ops: seq<Op>)
    requires SourcePair(nest, e, env, u, w) && AsRun(nest, e, env, u, w, p)
    requires IsRun(states, ops) && states[0] == nest.State()
    ensures forall k :: 0 <= k <= |ops| ==> states[k].Valid() && Covered(states[k], p)
  {
    SourceIsCovered(nest, e, env, u, w, p);
    forall k | 0 <= k <= |ops|
      ensures states[k].Valid() && Covered(states[k], p)
    {
      RunKeepsCovered(states, ops, k, p);
    }
  }
}
