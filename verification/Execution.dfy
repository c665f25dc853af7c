/**
 Execution of loop iterations over a memory, and when the order does not matter.
 An iteration reads and writes known cells and computes the written values from
 the cells it reads; two iterations conflict when one writes a cell the other
 touches.
 */
module Execution {
  // Array arr at index idx.
  datatype Cell = Cell(arr: string, idx: int)

  type Memory = map<Cell, real>

  datatype Body<!I> = Body(
    readSet: I -> set<Cell>,
    writeSet: I -> set<Cell>,
    compute: (I, Memory) -> Memory)

  function ValueAt(m: Memory, c: Cell): real {
    if c in m then m[c] else 0.0
  }

  function Restrict(m: Memory, cs: set<Cell>): Memory {
    map c | c in cs :: ValueAt(m, c)
  }

  /** One iteration: the written cells get the values computed from the read cells. */
  function Step<I>(b: Body<I>, i: I, m: Memory): Memory {
    var out := b.compute(i, Restrict(m, b.readSet(i)));
    m + map c | c in b.writeSet(i) :: ValueAt(out, c)
  }

  function Run<I>(b: Body<I>, order: seq<I>, m: Memory): Memory {
    if order == [] then m else Run(b, order[1..], Step(b, order[0], m))
  }

  predicate Conflict<I>(b: Body<I>, i: I, j: I) {
    || b.writeSet(i) * b.writeSet(j) != {}
    || b.writeSet(i) * b.readSet(j) != {}
    || b.readSet(i) * b.writeSet(j) != {}
  }

  lemma ConflictSymmetric<I>(b: Body<I>, i: I, j: I)
    ensures Conflict(b, i, j) <==> Conflict(b, j, i)
  {
    assert b.writeSet(i) * b.writeSet(j) == b.writeSet(j) * b.writeSet(i);
    assert b.writeSet(i) * b.readSet(j) == b.readSet(j) * b.writeSet(i);
    assert b.readSet(i) * b.writeSet(j) == b.writeSet(j) * b.readSet(i);
  }

  /** A step does not change the view of an iteration it does not conflict with. */
  lemma StepKeepsView<I>(b: Body<I>, i: I, j: I, m: Memory)
    requires !Conflict(b, i, j)
    ensures Restrict(Step(b, i, m), b.readSet(j)) == Restrict(m, b.readSet(j))
  {
    forall c | c in b.readSet(j)
      ensures c !in b.writeSet(i)
    {
      assert c in b.writeSet(i) ==> c in b.writeSet(i) * b.readSet(j);
    }
  }

  lemma StepsCommute<I>(b: Body<I>, i: I, j: I, m: Memory)
    requires !Conflict(b, i, j)
    ensures Step(b, j, Step(b, i, m)) == Step(b, i, Step(b, j, m))
  {
    ConflictSymmetric(b, i, j);
    StepKeepsView(b, i, j, m);
    StepKeepsView(b, j, i, m);
    var wi := map c | c in b.writeSet(i) :: ValueAt(b.compute(i, Restrict(m, b.readSet(i))), c);
    var wj := map c | c in b.writeSet(j) :: ValueAt(b.compute(j, Restrict(m, b.readSet(j))), c);
    forall c | c in b.writeSet(i)
      ensures c !in b.writeSet(j)
    {
      assert c in b.writeSet(j) ==> c in b.writeSet(i) * b.writeSet(j);
    }
    assert wi.Keys !! wj.Keys;
    assert m + wi + wj == m + wj + wi;
  }

  /** An iteration that conflicts with nothing before it can be run first. */
  lemma {:induction false} RunFirst<I>(b: Body<I>, before: seq<I>, i: I, after: seq<I>, m: Memory)
    requires forall j :: j in before ==> !Conflict(b, i, j)
    ensures Run(b, before + [i] + after, m) == Run(b, [i] + (before + after), m)
  {
    var order, moved := before + [i] + after, [i] + (before + after);
    assert moved[1..] == before + after;
    if before == [] {
      assert order == moved;
    } else {
      var j := before[0];
      var m' := Step(b, j, m);
      assert order[1..] == before[1..] + [i] + after;
      RunFirst(b, before[1..], i, after, m');
      assert ([i] + (before[1..] + after))[1..] == before[1..] + after;
      assert Run(b, order, m) == Run(b, before[1..] + after, Step(b, i, m'));
      StepsCommute(b, i, j, m);
      assert (before + after)[1..] == before[1..] + after;
    }
  }

  ghost predicate NoRepeats<I(!new)>(s: seq<I>) {
    forall p, q :: 0 <= p < q < |s| ==> s[p] != s[q]
  }

  ghost predicate SameElements<I(!new)>(s: seq<I>, t: seq<I>) {
    forall i :: i in s <==> i in t
  }

  /** i comes before j in s. */
  ghost predicate Precedes<I(!new)>(s: seq<I>, i: I, j: I) {
    exists p, q :: 0 <= p < q < |s| && s[p] == i && s[q] == j
  }

  /** Both orders put every conflicting pair the same way round. */
  ghost predicate AgreeOnConflicts<I(!new)>(b: Body<I>, s: seq<I>, t: seq<I>) {
    forall i, j :: Precedes(s, i, j) && Conflict(b, i, j) ==> Precedes(t, i, j)
  }

  lemma PrecedesIsStrict<I(!new)>(s: seq<I>, i: I, j: I)
    requires NoRepeats(s) && Precedes(s, i, j)
    ensures !Precedes(s, j, i) && i != j
  {
  }

  /** Two orders of the same iterations that agree on every conflicting pair leave the same memory. */
  lemma {:induction false} AgreeingOrdersGiveSameMemory<I(!new)>(b: Body<I>, s: seq<I>, t: seq<I>, m: Memory)
    requires NoRepeats(s) && NoRepeats(t) && SameElements(s, t)
    requires AgreeOnConflicts(b, s, t)
    ensures Run(b, s, m) == Run(b, t, m)
    decreases |s|
  {
    assert |t| > 0 ==> t[0] in s;
    if s != [] {
      var i := s[0];
      assert i in t;
      var p :| 0 <= p < |t| && t[p] == i;
      var before, after := t[..p], t[p + 1..];
      assert t == before + [i] + after;
      forall j | j in before
        ensures !Conflict(b, i, j)
      {
        assert j in t && j != i;
        assert Precedes(t, j, i);
        var q :| 0 <= q < |s| && s[q] == j;
        assert Precedes(s, i, j);
        PrecedesIsStrict(t, j, i);
      }
      RunFirst(b, before, i, after, m);
      assert ([i] + (before + after))[1..] == before + after;
      RestStillAgrees(b, s, t, p);
      AgreeingOrdersGiveSameMemory(b, s[1..], before + after, Step(b, i, m));
    }
  }

  lemma RestStillAgrees<I(!new)>(b: Body<I>, s: seq<I>, t: seq<I>, p: nat)
    requires NoRepeats(s) && NoRepeats(t) && SameElements(s, t) && AgreeOnConflicts(b, s, t)
    requires s != [] && p < |t| && t[p] == s[0]
    ensures var rest := t[..p] + t[p + 1..];
            NoRepeats(s[1..]) && NoRepeats(rest) && SameElements(s[1..], rest) && AgreeOnConflicts(b, s[1..], rest)
  {
    var rest := t[..p] + t[p + 1..];
    RemovedKeepsOrder(t, p);
    assert s == [s[0]] + s[1..];
    forall i
      ensures i in s[1..] <==> i in s && i != s[0]
    {
    }
    forall i, j | Precedes(s[1..], i, j) && Conflict(b, i, j)
      ensures Precedes(rest, i, j)
    {
      var q, r :| 0 <= q < r < |s| - 1 && s[1..][q] == i && s[1..][r] == j;
      assert s[q + 1] == i && s[r + 1] == j;
      assert Precedes(s, i, j);
    }
  }

  /** Removing one element keeps the others and their order. */
  lemma RemovedKeepsOrder<I(!new)>(t: seq<I>, p: nat)
    requires NoRepeats(t) && p < |t|
    ensures var rest := t[..p] + t[p + 1..];
            && NoRepeats(rest)
            && (forall i :: i in rest <==> i in t && i != t[p])
            && (forall i, j :: Precedes(t, i, j) && i != t[p] && j != t[p] ==> Precedes(rest, i, j))
  {
    var rest := t[..p] + t[p + 1..];
    forall k | 0 <= k < |rest|
      ensures rest[k] == t[if k < p then k else k + 1]
    {
    }
    forall i
      ensures i in rest <==> i in t && i != t[p]
    {
      if i in t && i != t[p] {
        var q :| 0 <= q < |t| && t[q] == i;
        assert rest[if q < p then q else q - 1] == i;
      }
    }
    forall i, j | Precedes(t, i, j) && i != t[p] && j != t[p]
      ensures Precedes(rest, i, j)
    {
      var q, r :| 0 <= q < r < |t| && t[q] == i && t[r] == j;
      var q', r' := if q < p then q else q - 1, if r < p then r else r - 1;
      assert rest[q'] == i && rest[r'] == j && q' < r';
    }
  }

  /** No two distinct iterations touch a cell that one of them writes: the driver's "fully parallel". */
  ghost predicate FullyParallel<I(!new)>(b: Body<I>, iterations: seq<I>) {
    forall i, j :: i in iterations && j in iterations && i != j ==> !Conflict(b, i, j)
  }

  /** A fully parallel loop leaves the same memory whatever order its iterations run in. */
  lemma ParallelLoopAnyOrder<I(!new)>(b: Body<I>, s: seq<I>, t: seq<I>, m: Memory)
    requires NoRepeats(s) && NoRepeats(t) && SameElements(s, t) && FullyParallel(b, s)
    ensures Run(b, s, m) == Run(b, t, m)
  {
    forall i, j | Precedes(s, i, j)
      ensures !Conflict(b, i, j)
    {
      PrecedesIsStrict(s, i, j);
    }
    AgreeingOrdersGiveSameMemory(b, s, t, m);
  }

  // ---------- Orders by a relation ----------

  ghost predicate OrderedBy<I(!new)>(s: seq<I>, less: (I, I) -> bool) {
    forall p, q :: 0 <= p < q < |s| ==> less(s[p], s[q])
  }

  ghost predicate Transitive<I(!new)>(less: (I, I) -> bool) {
    forall x, y, z :: less(x, y) && less(y, z) ==> less(x, z)
  }

  /** x put in its place in an ordered sequence it is comparable with. */
  lemma {:induction false} InsertOrdered<I(!new)>(s: seq<I>, x: I, less: (I, I) -> bool) returns (r: seq<I>)
    requires OrderedBy(s, less) && Transitive(less) && forall y :: y in s ==> less(x, y) || less(y, x)
    ensures OrderedBy(r, less) && forall y :: y in r <==> y == x || y in s
  {
    if s == [] || less(s[|s| - 1], x) {
      r := s + [x];
    } else {
      var front, last := s[..|s| - 1], s[|s| - 1];
      assert s == front + [last] && last in s;
      assert forall y :: y in front ==> y in s && less(y, last);
      var t := InsertOrdered(front, x, less);
      r := t + [last];
      assert forall p :: 0 <= p < |t| ==> t[p] in t;
    }
  }

  /** Pairwise comparable elements can be put in order. */
  lemma {:induction false} OrderExists<I(!new)>(xs: seq<I>, less: (I, I) -> bool) returns (order: seq<I>)
    requires Transitive(less) && forall p, q :: 0 <= p < q < |xs| ==> less(xs[p], xs[q]) || less(xs[q], xs[p])
    ensures OrderedBy(order, less) && SameElements(xs, order)
  {
    if xs == [] {
      order := [];
    } else {
      var front, last := xs[..|xs| - 1], xs[|xs| - 1];
      assert xs == front + [last];
      var o := OrderExists(front, less);
      forall y | y in o
        ensures less(last, y) || less(y, last)
      {
        assert y in front;
        var p :| 0 <= p < |front| && front[p] == y;
        assert less(xs[p], xs[|xs| - 1]) || less(xs[|xs| - 1], xs[p]);
      }
      order := InsertOrdered(o, last, less);
    }
  }
}
