/**
 What the driver's "fully parallel" verdict buys for the sparse kernels: their
 loops as iterations over a memory, which loops pass, and what every order of
 the iterations computes.
 */
module ParallelKernels {
  import opened Execution
  import opened SparseMatrices
  import opened SparseKernels
  import Lists

  function X(k: int): Cell {
    Cell("x", k)
  }

  function Y(k: int): Cell {
    Cell("y", k)
  }

  /** The x cells the entries lo..hi-1 of m select. */
  ghost function Selected(m: Compressed, lo: int, hi: int): set<Cell>
    requires m.InBounds(lo, hi)
  {
    set p | lo <= p < hi :: X(m.idx[p])
  }

  /** Sum of val[p] * x[idx[p]] with x in memory. */
  ghost function GatherFrom(m: Compressed, lo: int, hi: int, mem: Memory): real
    requires m.InBounds(lo, hi)
    decreases hi
  {
    if lo == hi then 0.0 else GatherFrom(m, lo, hi - 1, mem) + Times(m.val[hi - 1], ValueAt(mem, X(m.idx[hi - 1])))
  }

  lemma {:induction false} GatherFromSame(m: Compressed, lo: int, hi: int, mem: Memory, mem': Memory)
    requires m.InBounds(lo, hi)
    requires forall p :: lo <= p < hi ==> ValueAt(mem, X(m.idx[p])) == ValueAt(mem', X(m.idx[p]))
    ensures GatherFrom(m, lo, hi, mem) == GatherFrom(m, lo, hi, mem')
    decreases hi
  {
    if lo < hi {
      GatherFromSame(m, lo, hi - 1, mem, mem');
    }
  }

  lemma {:induction false} GatherFromHeld(m: Compressed, lo: int, hi: int, mem: Memory, x: seq<real>)
    requires m.InBounds(lo, hi) && Holds(mem, x) && forall p :: lo <= p < hi ==> 0 <= m.idx[p] < |x|
    ensures GatherFrom(m, lo, hi, mem) == Gather(m, lo, hi, x)
    decreases hi
  {
    if lo < hi {
      GatherFromHeld(m, lo, hi - 1, mem, x);
    }
  }

  /** The x array in memory is x. */
  ghost predicate Holds(mem: Memory, x: seq<real>) {
    forall c :: 0 <= c < |x| ==> ValueAt(mem, X(c)) == x[c]
  }

  /** order runs each iteration of lo..hi-1 exactly once. */
  ghost predicate Runs(order: seq<int>, lo: int, hi: int) {
    NoRepeats(order) && forall i :: i in order <==> lo <= i < hi
  }

  /** What a step leaves in a cell. */
  lemma StepAt<I>(b: Body<I>, i: I, mem: Memory, c: Cell)
    ensures ValueAt(Step(b, i, mem), c) ==
            if c in b.writeSet(i) then ValueAt(b.compute(i, Restrict(mem, b.readSet(i))), c) else ValueAt(mem, c)
  {
  }

  // ---------- Row loop of y += A * x ----------

  datatype Span = Span(lo: int, hi: int)

  /** The positions of line i. */
  function LineSpan(m: Compressed, n: nat, i: int): (s: Span)
    requires m.Valid(n)
    ensures m.InBounds(s.lo, s.hi)
  {
    if 0 <= i < n then Span(m.ptr[i], m.ptr[i + 1]) else Span(0, 0)
  }

  ghost function RowReads(m: Compressed, n: nat, i: int): set<Cell>
    requires m.Valid(n)
  {
    {Y(i)} + Selected(m, LineSpan(m, n, i).lo, LineSpan(m, n, i).hi)
  }

  ghost function RowResult(m: Compressed, n: nat, i: int, mem: Memory): Memory
    requires m.Valid(n)
  {
    map[Y(i) := ValueAt(mem, Y(i)) + GatherFrom(m, LineSpan(m, n, i).lo, LineSpan(m, n, i).hi, mem)]
  }

  ghost function SpmvRows(m: Compressed, n: nat): Body<int>
    requires m.Valid(n)
  {
    Body((i: int) => RowReads(m, n, i), (i: int) => {Y(i)}, (i: int, mem: Memory) => RowResult(m, n, i, mem))
  }

  /** No two rows of the product conflict, whatever the index arrays hold. */
  lemma SpmvFullyParallel(m: Compressed, n: nat, rows: seq<int>)
    requires m.Valid(n)
    ensures FullyParallel(SpmvRows(m, n), rows)
  {
    var b := SpmvRows(m, n);
    forall i, j | i != j
      ensures !Conflict(b, i, j)
    {
      assert Y(i) !in RowReads(m, n, j) && Y(j) !in RowReads(m, n, i);
    }
  }

  /** A gather depends only on the cells it selects. */
  lemma GatherFromView(m: Compressed, lo: int, hi: int, mem: Memory, cells: set<Cell>)
    requires m.InBounds(lo, hi) && Selected(m, lo, hi) <= cells
    ensures GatherFrom(m, lo, hi, Restrict(mem, cells)) == GatherFrom(m, lo, hi, mem)
  {
    forall p | lo <= p < hi
      ensures ValueAt(Restrict(mem, cells), X(m.idx[p])) == ValueAt(mem, X(m.idx[p]))
    {
      assert X(m.idx[p]) in Selected(m, lo, hi);
    }
    GatherFromSame(m, lo, hi, Restrict(mem, cells), mem);
  }

  /** Every line's column indices are below cols. */
  ghost predicate ColumnsBelow(m: Compressed, n: nat, cols: nat)
    requires m.Valid(n)
  {
    forall p :: m.ptr[0] <= p < m.ptr[n] ==> 0 <= m.idx[p] < cols
  }

  lemma RowProduct(m: Compressed, n: nat, i: int, mem: Memory, x: seq<real>)
    requires m.Valid(n) && 0 <= i < n && Holds(mem, x) && ColumnsBelow(m, n, |x|)
    ensures GatherFrom(m, LineSpan(m, n, i).lo, LineSpan(m, n, i).hi, mem) == Dot(CsrRow(m, n, i), x, |x|)
  {
    var lo, hi := m.ptr[i], m.ptr[i + 1];
    assert m.ptr[0] <= lo <= hi <= m.ptr[n];
    GatherFromHeld(m, lo, hi, mem, x);
    GatherIsDot(m, lo, hi, x, |x|, CsrRow(m, n, i));
  }

  /** Row i adds its product to y[i] and touches nothing else. */
  lemma SpmvStep(m: Compressed, n: nat, i: int, mem: Memory, x: seq<real>)
    requires m.Valid(n) && 0 <= i < n && Holds(mem, x) && ColumnsBelow(m, n, |x|)
    ensures var after := Step(SpmvRows(m, n), i, mem);
            && ValueAt(after, Y(i)) == ValueAt(mem, Y(i)) + Dot(CsrRow(m, n, i), x, |x|)
            && forall c :: c != Y(i) ==> ValueAt(after, c) == ValueAt(mem, c)
  {
    var b, s := SpmvRows(m, n), LineSpan(m, n, i);
    GatherFromView(m, s.lo, s.hi, mem, RowReads(m, n, i));
    RowProduct(m, n, i, mem, x);
    StepAt(b, i, mem, Y(i));
    assert Y(i) in RowReads(m, n, i);
    forall c | c != Y(i)
      ensures ValueAt(Step(b, i, mem), c) == ValueAt(mem, c)
    {
      StepAt(b, i, mem, c);
    }
  }

  /** From mem to after, each y[r] with r in rows grew by add(r) and no other cell changed. */
  ghost predicate Grew(mem: Memory, after: Memory, rows: seq<int>, add: int -> real) {
    && (forall r :: r in rows ==> ValueAt(after, Y(r)) == ValueAt(mem, Y(r)) + add(r))
    && forall c: Cell :: (c.arr != "y" || c.idx !in rows) ==> ValueAt(after, c) == ValueAt(mem, c)
  }

  lemma GrewThen(mem: Memory, mid: Memory, after: Memory, i: int, rest: seq<int>, add: int -> real)
    requires i !in rest && ValueAt(mid, Y(i)) == ValueAt(mem, Y(i)) + add(i)
    requires forall c :: c != Y(i) ==> ValueAt(mid, c) == ValueAt(mem, c)
    requires Grew(mid, after, rest, add)
    ensures Grew(mem, after, [i] + rest, add)
  {
    forall c: Cell | c.arr != "y" || c.idx !in [i] + rest
      ensures ValueAt(after, c) == ValueAt(mem, c)
    {
      assert c != Y(i) && (c.arr != "y" || c.idx !in rest);
    }
  }

  ghost function RowProducts(m: Compressed, n: nat, x: seq<real>): int -> real
    requires m.Valid(n)
  {
    (r: int) => Dot(CsrRow(m, n, r), x, |x|)
  }

  /** Running some rows, in any order, adds their products and leaves the other cells alone. */
  lemma {:induction false} SpmvSomeRows(m: Compressed, n: nat, order: seq<int>, mem: Memory, x: seq<real>)
    requires m.Valid(n) && NoRepeats(order) && (forall i :: i in order ==> 0 <= i < n)
    requires Holds(mem, x) && ColumnsBelow(m, n, |x|)
    ensures Grew(mem, Run(SpmvRows(m, n), order, mem), order, RowProducts(m, n, x))
  {
    if order != [] {
      var i, rest := order[0], order[1..];
      assert order == [i] + rest && i in order && forall k :: k in rest ==> k in order;
      var mid := Step(SpmvRows(m, n), i, mem);
      SpmvStep(m, n, i, mem, x);
      SpmvSomeRows(m, n, rest, mid, x);
      GrewThen(mem, mid, Run(SpmvRows(m, n), rest, mid), i, rest, RowProducts(m, n, x));
    }
  }

  /** Every order of the rows computes the same memory, and in it y + A * x: what SpmvCsr computes. */
  lemma SpmvAnyOrder(m: Compressed, n: nat, order: seq<int>, other: seq<int>, mem: Memory, x: seq<real>)
    requires m.Valid(n) && Runs(order, 0, n) && Runs(other, 0, n) && Holds(mem, x) && ColumnsBelow(m, n, |x|)
    ensures var after := Run(SpmvRows(m, n), order, mem);
            && after == Run(SpmvRows(m, n), other, mem)
            && (forall r :: 0 <= r < n ==> ValueAt(after, Y(r)) == ValueAt(mem, Y(r)) + Dot(CsrRow(m, n, r), x, |x|))
            && Holds(after, x)
  {
    SpmvFullyParallel(m, n, order);
    assert SameElements(order, other);
    ParallelLoopAnyOrder(SpmvRows(m, n), order, other, mem);
    SpmvSomeRows(m, n, order, mem, x);
    forall r | 0 <= r < n
      ensures r in order
    {
    }
  }

  // ---------- Inner update loop of the column solve ----------

  /** Iteration p of x[Li[p]] -= Lx[p] * x[j]. */
  ghost function ColumnUpdates(m: Compressed, lo: int, hi: int, j: int): Body<int>
    requires m.InBounds(lo, hi)
  {
    Body(
      (p: int) => if lo <= p < hi then {X(m.idx[p]), X(j)} else {},
      (p: int) => if lo <= p < hi then {X(m.idx[p])} else {},
      (p: int, mem: Memory) =>
        if lo <= p < hi then
          map[X(m.idx[p]) := ValueAt(mem, X(m.idx[p])) - Times(m.val[p], ValueAt(mem, X(j)))]
        else map[])
  }

  /** The row indices of lo..hi-1 are distinct and none is j. */
  ghost predicate Independent(m: Compressed, lo: int, hi: int, j: int)
    requires m.InBounds(lo, hi)
  {
    && (forall p, q :: lo <= p < q < hi ==> m.idx[p] != m.idx[q])
    && forall p :: lo <= p < hi ==> m.idx[p] != j
  }

  lemma UpdatesConflictIff(m: Compressed, lo: int, hi: int, j: int, p: int, q: int)
    requires m.InBounds(lo, hi) && lo <= p < hi && lo <= q < hi
    ensures Conflict(ColumnUpdates(m, lo, hi, j), p, q) <==> m.idx[p] == m.idx[q] || m.idx[p] == j || m.idx[q] == j
  {
    var b := ColumnUpdates(m, lo, hi, j);
    if m.idx[p] == m.idx[q] {
      assert X(m.idx[p]) in b.writeSet(p) * b.writeSet(q);
    } else if m.idx[p] == j {
      assert X(j) in b.writeSet(p) * b.readSet(q);
    } else if m.idx[q] == j {
      assert X(j) in b.readSet(p) * b.writeSet(q);
    } else {
      assert b.writeSet(p) * b.writeSet(q) == {};
      assert b.writeSet(p) * b.readSet(q) == {};
      assert b.readSet(p) * b.writeSet(q) == {};
    }
  }

  /** A column's updates are fully parallel exactly when its rows are distinct and avoid j; one update always is. */
  lemma UpdatesParallelIff(m: Compressed, lo: int, hi: int, j: int, order: seq<int>)
    requires m.InBounds(lo, hi) && Runs(order, lo, hi)
    ensures FullyParallel(ColumnUpdates(m, lo, hi, j), order) <==> hi - lo <= 1 || Independent(m, lo, hi, j)
  {
    var b := ColumnUpdates(m, lo, hi, j);
    forall p, q | lo <= p < hi && lo <= q < hi
      ensures Conflict(b, p, q) <==> m.idx[p] == m.idx[q] || m.idx[p] == j || m.idx[q] == j
    {
      UpdatesConflictIff(m, lo, hi, j, p, q);
    }
    if FullyParallel(b, order) && hi - lo > 1 {
      forall p | lo <= p < hi
        ensures m.idx[p] != j
      {
        var q := if p == lo then lo + 1 else lo;
        assert p in order && q in order && !Conflict(b, p, q);
      }
      forall p, q | lo <= p < q < hi
        ensures m.idx[p] != m.idx[q]
      {
        assert p in order && q in order && !Conflict(b, p, q);
      }
    }
  }

  lemma UpdateStep(m: Compressed, lo: int, hi: int, j: int, p: int, mem: Memory)
    requires m.InBounds(lo, hi) && lo <= p < hi
    ensures var after := Step(ColumnUpdates(m, lo, hi, j), p, mem);
            && ValueAt(after, X(m.idx[p])) == ValueAt(mem, X(m.idx[p])) - Times(m.val[p], ValueAt(mem, X(j)))
            && forall c :: c != X(m.idx[p]) ==> ValueAt(after, c) == ValueAt(mem, c)
  {
  }

  /** Running some updates, in any order: each selected row loses its entry times x[j]. */
  lemma {:induction false} SomeUpdates(m: Compressed, lo: int, hi: int, j: int, order: seq<int>, mem: Memory)
    requires m.InBounds(lo, hi) && NoRepeats(order) && (forall p :: p in order ==> lo <= p < hi)
    requires Independent(m, lo, hi, j)
    ensures RowsUpdated(m, lo, hi, j, order, mem, Run(ColumnUpdates(m, lo, hi, j), order, mem))
  {
    if order != [] {
      var b, i, rest := ColumnUpdates(m, lo, hi, j), order[0], order[1..];
      assert order == [i] + rest && i !in rest && i in order && forall p :: p in rest ==> p in order;
      var mid := Step(b, i, mem);
      UpdateStep(m, lo, hi, j, i, mem);
      SomeUpdates(m, lo, hi, j, rest, mid);
      RowsUpdatedThen(m, lo, hi, j, i, rest, mem, mid, Run(b, rest, mid));
    }
  }

  /** Each selected row lost its entry times x[j], and nothing else changed. */
  ghost predicate RowsUpdated(m: Compressed, lo: int, hi: int, j: int, order: seq<int>, mem: Memory, after: Memory)
    requires m.InBounds(lo, hi) && forall p :: p in order ==> lo <= p < hi
  {
    && (forall p :: p in order ==>
          ValueAt(after, X(m.idx[p])) == ValueAt(mem, X(m.idx[p])) - Times(m.val[p], ValueAt(mem, X(j))))
    && forall c :: (forall p :: p in order ==> c != X(m.idx[p])) ==> ValueAt(after, c) == ValueAt(mem, c)
  }

  lemma RowsUpdatedThen(m: Compressed, lo: int, hi: int, j: int, i: int, rest: seq<int>, mem: Memory, mid: Memory,
                        after: Memory)
    requires m.InBounds(lo, hi) && Independent(m, lo, hi, j) && lo <= i < hi && i !in rest
             && (forall p :: p in rest ==> lo <= p < hi)
    requires ValueAt(mid, X(m.idx[i])) == ValueAt(mem, X(m.idx[i])) - Times(m.val[i], ValueAt(mem, X(j)))
    requires forall c :: c != X(m.idx[i]) ==> ValueAt(mid, c) == ValueAt(mem, c)
    requires RowsUpdated(m, lo, hi, j, rest, mid, after)
    ensures RowsUpdated(m, lo, hi, j, [i] + rest, mem, after)
  {
    forall p | p in rest
      ensures m.idx[p] != m.idx[i]
    {
      assert p != i;
    }
    assert X(j) != X(m.idx[i]);
    forall c | forall p :: p in [i] + rest ==> c != X(m.idx[p])
      ensures ValueAt(after, c) == ValueAt(mem, c)
    {
      assert i in [i] + rest && forall p :: p in rest ==> p in [i] + rest;
    }
  }

  /** Positions lo..hi-1 hold column j below its diagonal, without repeated rows. */
  ghost predicate BelowDiagonal(m: Compressed, n: nat, j: nat, s: Span)
    requires m.Valid(n) && j < n
  {
    LowerColumn(m, n, j) && s == Span(m.ptr[j] + 1, m.ptr[j + 1]) && m.InBounds(s.lo, s.hi)
      && Independent(m, s.lo, s.hi, j)
  }

  /** The updates below a diagonal, in any order, leave what EliminateColumn leaves: the column subtracted. */
  lemma UpdatesAnyOrder(m: Compressed, n: nat, j: nat, s: Span, order: seq<int>, other: seq<int>,
                        mem: Memory, before: seq<real>, after: seq<real>)
    requires LowerColumns(m, n) && j < n && BelowDiagonal(m, n, j, s) && Runs(order, s.lo, s.hi)
             && Runs(other, s.lo, s.hi)
    requires |before| == |after| == n && Holds(mem, before) && ColumnEliminated(m, n, j, before, after)
    ensures var b := ColumnUpdates(m, s.lo, s.hi, j);
            Run(b, order, mem) == Run(b, other, mem) && Holds(Run(b, order, mem), after)
  {
    var b := ColumnUpdates(m, s.lo, s.hi, j);
    UpdatesParallelIff(m, s.lo, s.hi, j, order);
    assert SameElements(order, other);
    ParallelLoopAnyOrder(b, order, other, mem);
    SomeUpdates(m, s.lo, s.hi, j, order, mem);
    forall r | 0 <= r < n
      ensures ValueAt(Run(b, order, mem), X(r)) == after[r]
    {
      UpdatedRow(m, n, j, s, order, mem, Run(b, order, mem), before, after, r);
    }
  }

  lemma UpdatedRow(m: Compressed, n: nat, j: nat, s: Span, order: seq<int>, mem: Memory, mem': Memory,
                   before: seq<real>, after: seq<real>, r: nat)
    requires LowerColumns(m, n) && j < n && BelowDiagonal(m, n, j, s) && Runs(order, s.lo, s.hi)
    requires |before| == |after| == n && Holds(mem, before) && ColumnEliminated(m, n, j, before, after) && r < n
    requires forall p :: s.lo <= p < s.hi ==>
             ValueAt(mem', X(m.idx[p])) == ValueAt(mem, X(m.idx[p])) - Times(m.val[p], before[j])
    requires (forall p :: s.lo <= p < s.hi ==> r != m.idx[p]) ==> ValueAt(mem', X(r)) == before[r]
    ensures ValueAt(mem', X(r)) == after[r]
  {
    LowerColumnEntries(m, n, j);
    if p :| s.lo <= p < s.hi && m.idx[p] == r {
      assert r > j;
      EntrySumSingle(m, s.lo, s.hi, p);
    } else {
      EntrySumAbsent(m, s.lo, s.hi, r);
      assert Times(0.0, before[j]) == 0.0;
    }
  }

  lemma {:induction false} EntrySumSingle(m: Compressed, lo: int, hi: int, p: int)
    requires m.InBounds(lo, hi) && lo <= p < hi
    requires forall q :: lo <= q < hi && q != p ==> m.idx[q] != m.idx[p]
    ensures EntrySum(m, lo, hi, m.idx[p]) == m.val[p]
    decreases hi
  {
    if p == hi - 1 {
      EntrySumAbsent(m, lo, p, m.idx[p]);
    } else {
      EntrySumSingle(m, lo, hi - 1, p);
    }
  }

  // ---------- Column loop of y += A * x ----------

  ghost function ColumnCells(m: Compressed, n: nat, j: int): set<Cell>
    requires m.Valid(n)
  {
    set p | LineSpan(m, n, j).lo <= p < LineSpan(m, n, j).hi :: Y(m.idx[p])
  }

  ghost function ColumnResult(m: Compressed, n: nat, j: int, mem: Memory): Memory
    requires m.Valid(n)
  {
    map c | c in ColumnCells(m, n, j) :: ValueAt(mem, c) + Times(Entry(m, n, j, c.idx), ValueAt(mem, X(j)))
  }

  /** Column j of the scatter: y[r] += A(r, j) * x[j] for every stored row r. */
  ghost function GaxpyColumns(m: Compressed, n: nat): Body<int>
    requires m.Valid(n)
  {
    Body((j: int) => ColumnCells(m, n, j) + {X(j)}, (j: int) => ColumnCells(m, n, j),
         (j: int, mem: Memory) => ColumnResult(m, n, j, mem))
  }

  /** Some row index is stored in both columns. */
  ghost predicate ShareRow(m: Compressed, n: nat, i: int, j: int)
    requires m.Valid(n)
  {
    exists p, q :: LineSpan(m, n, i).lo <= p < LineSpan(m, n, i).hi && LineSpan(m, n, j).lo <= q < LineSpan(m, n, j).hi
                   && m.idx[p] == m.idx[q]
  }

  lemma ColumnsConflictIff(m: Compressed, n: nat, i: int, j: int)
    requires m.Valid(n)
    ensures Conflict(GaxpyColumns(m, n), i, j) <==> ShareRow(m, n, i, j)
  {
    var si, sj, ci, cj := LineSpan(m, n, i), LineSpan(m, n, j), ColumnCells(m, n, i), ColumnCells(m, n, j);
    assert ci * (cj + {X(j)}) == ci * cj && (ci + {X(i)}) * cj == ci * cj;
    if ShareRow(m, n, i, j) {
      var p, q :| si.lo <= p < si.hi && sj.lo <= q < sj.hi && m.idx[p] == m.idx[q];
      assert Y(m.idx[p]) in ci * cj;
    }
    if ci * cj != {} {
      var c := Lists.SomeMember(ci * cj);
      assert c in ci && c in cj;
    }
  }

  /** The column loop is fully parallel exactly when no row index occurs in two columns. */
  lemma ColumnsParallelIff(m: Compressed, n: nat, order: seq<int>)
    requires m.Valid(n) && Runs(order, 0, n)
    ensures FullyParallel(GaxpyColumns(m, n), order) <==>
            forall i, j :: 0 <= i < n && 0 <= j < n && i != j ==> !ShareRow(m, n, i, j)
  {
    forall i, j
      ensures Conflict(GaxpyColumns(m, n), i, j) <==> ShareRow(m, n, i, j)
    {
      ColumnsConflictIff(m, n, i, j);
    }
  }

  // ---------- Row loop of the forward solve ----------

  /** Row i's positions before its diagonal. */
  function OffDiagonal(m: Compressed, n: nat, i: int): (s: Span)
    requires m.Valid(n)
    ensures m.InBounds(s.lo, s.hi)
  {
    if 0 <= i < n && m.ptr[i] < m.ptr[i + 1] then Span(m.ptr[i], m.ptr[i + 1] - 1) else Span(0, 0)
  }

  function Diagonal(m: Compressed, n: nat, i: int): real
    requires m.Valid(n)
  {
    if 0 <= i < n && m.ptr[i] < m.ptr[i + 1] then m.val[m.ptr[i + 1] - 1] else 1.0
  }

  ghost function RowSum(m: Compressed, n: nat, i: int, mem: Memory): real
    requires m.Valid(n)
  {
    GatherFrom(m, OffDiagonal(m, n, i).lo, OffDiagonal(m, n, i).hi, mem)
  }

  ghost function SolveReads(m: Compressed, n: nat, i: int): set<Cell>
    requires m.Valid(n)
  {
    Selected(m, OffDiagonal(m, n, i).lo, OffDiagonal(m, n, i).hi)
  }

  ghost function SolveResult(m: Compressed, n: nat, b: seq<real>, i: int, mem: Memory): Memory
    requires m.Valid(n)
  {
    if Diagonal(m, n, i) != 0.0 && 0 <= i < |b| then map[X(i) := (b[i] - RowSum(m, n, i, mem)) / Diagonal(m, n, i)]
      else map[]
  }

  /** Row i of the row-oriented forward solve for the right-hand side b. */
  ghost function SolveRows(m: Compressed, n: nat, b: seq<real>): Body<int>
    requires m.Valid(n)
  {
    Body((i: int) => SolveReads(m, n, i), (i: int) => {X(i)}, (i: int, mem: Memory) => SolveResult(m, n, b, i, mem))
  }

  /** Row i reads no x but those of done. */
  ghost predicate ReadsOnly(m: Compressed, n: nat, i: int, done: seq<int>)
    requires m.Valid(n)
  {
    forall c :: c in SolveReads(m, n, i) ==> c.idx in done
  }

  /** Every row of order comes after the rows it reads. */
  ghost predicate RespectsReads(m: Compressed, n: nat, order: seq<int>)
    requires m.Valid(n)
  {
    forall k {:trigger order[k]} :: 0 <= k < |order| ==> ReadsOnly(m, n, order[k], order[..k])
  }

  /** Memory satisfies equation i. */
  ghost predicate RowHolds(m: Compressed, n: nat, b: seq<real>, mem: Memory, i: int)
    requires m.Valid(n)
  {
    0 <= i < |b| && RowSum(m, n, i, mem) + Times(Diagonal(m, n, i), ValueAt(mem, X(i))) == b[i]
  }

  lemma RowSumSame(m: Compressed, n: nat, i: int, mem: Memory, mem': Memory)
    requires m.Valid(n) && forall c :: c in SolveReads(m, n, i) ==> ValueAt(mem, c) == ValueAt(mem', c)
    ensures RowSum(m, n, i, mem) == RowSum(m, n, i, mem')
  {
    var s := OffDiagonal(m, n, i);
    forall p | s.lo <= p < s.hi
      ensures ValueAt(mem, X(m.idx[p])) == ValueAt(mem', X(m.idx[p]))
    {
      assert X(m.idx[p]) in SolveReads(m, n, i);
    }
    GatherFromSame(m, s.lo, s.hi, mem, mem');
  }

  /** Row i establishes its own equation, provided it does not read x[i]. */
  lemma SolveStep(m: Compressed, n: nat, b: seq<real>, i: int, mem: Memory, done: seq<int>)
    requires m.Valid(n) && 0 <= i < |b| && Diagonal(m, n, i) != 0.0 && ReadsOnly(m, n, i, done) && i !in done
    ensures RowHolds(m, n, b, Step(SolveRows(m, n, b), i, mem), i)
    ensures forall c :: c != X(i) ==> ValueAt(Step(SolveRows(m, n, b), i, mem), c) == ValueAt(mem, c)
  {
    var body, s := SolveRows(m, n, b), OffDiagonal(m, n, i);
    var after := Step(body, i, mem);
    forall c
      ensures ValueAt(after, c) ==
              if c == X(i) then ValueAt(SolveResult(m, n, b, i, Restrict(mem, SolveReads(m, n, i))), c)
              else ValueAt(mem, c)
    {
      StepAt(body, i, mem, c);
    }
    GatherFromView(m, s.lo, s.hi, mem, SolveReads(m, n, i));
    RowSumSame(m, n, i, mem, after);
    DivideBack(b[i] - RowSum(m, n, i, mem), Diagonal(m, n, i));
  }

  /** Every row of done satisfies its equation and reads only rows of done. */
  ghost predicate Settled(m: Compressed, n: nat, b: seq<real>, mem: Memory, done: seq<int>)
    requires m.Valid(n)
  {
    forall r {:trigger r in done} :: r in done ==> RowHolds(m, n, b, mem, r) && ReadsOnly(m, n, r, done)
  }

  lemma SettledNext(m: Compressed, n: nat, b: seq<real>, mem: Memory, done: seq<int>, i: int)
    requires m.Valid(n) && 0 <= i < |b| && Diagonal(m, n, i) != 0.0 && ReadsOnly(m, n, i, done) && i !in done
    requires Settled(m, n, b, mem, done)
    ensures Settled(m, n, b, Step(SolveRows(m, n, b), i, mem), done + [i])
  {
    var mem' := Step(SolveRows(m, n, b), i, mem);
    SolveStep(m, n, b, i, mem, done);
    forall r | r in done + [i]
      ensures RowHolds(m, n, b, mem', r) && ReadsOnly(m, n, r, done + [i])
    {
      if r != i {
        assert r in done;
        RowSumSame(m, n, r, mem, mem');
      }
    }
  }

  /** Rows run after done in an order that respects the reads settle one by one. */
  lemma {:induction false} SettledAtEnd(m: Compressed, n: nat, b: seq<real>, order: seq<int>, k: nat, mem: Memory)
    requires m.Valid(n) && NoRepeats(order) && RespectsReads(m, n, order) && k <= |order|
    requires forall i :: i in order ==> 0 <= i < |b| && Diagonal(m, n, i) != 0.0
    requires Settled(m, n, b, mem, order[..k])
    ensures Settled(m, n, b, Run(SolveRows(m, n, b), order[k..], mem), order)
    decreases |order| - k
  {
    if k < |order| {
      var i, body := order[k], SolveRows(m, n, b);
      assert i in order && i !in order[..k];
      SettledNext(m, n, b, mem, order[..k], i);
      assert order[..k] + [i] == order[..k + 1] && order[k..][0] == i && order[k..][1..] == order[k + 1..];
      SettledAtEnd(m, n, b, order, k + 1, Step(body, i, mem));
    } else {
      assert order[..k] == order && order[k..] == [];
    }
  }

  /**
   Any order of the rows in which every row follows the rows it reads solves
   L * x = b, hence gives the x of the sequential loop.
   */
  lemma SolveAnyRespectfulOrder(m: Compressed, n: nat, b: seq<real>, order: seq<int>, mem: Memory, x: seq<real>)
    requires LowerRows(m, n) && |x| == n <= |b| && Runs(order, 0, n) && RespectsReads(m, n, order)
    requires Solves(CsrRows(m, n), n, x, b)
    ensures Holds(Run(SolveRows(m, n, b), order, mem), x)
  {
    forall i | i in order
      ensures 0 <= i < |b| && Diagonal(m, n, i) != 0.0
    {
      assert LowerRow(m, n, i);
    }
    assert order[0..] == order;
    SettledAtEnd(m, n, b, order, 0, mem);
    var after := Run(SolveRows(m, n, b), order, mem);
    var y := seq(n, (i: int) => ValueAt(after, X(i)));
    assert Holds(after, y);
    forall r | 0 <= r < n
      ensures Dot(CsrRows(m, n)(r), y, n) == b[r]
    {
      assert r in order;
      HeldRow(m, n, b, after, y, r);
    }
    LowerRowsTriangular(m, n);
    UniqueSolution(CsrRows(m, n), n, x, y, b);
  }

  lemma HeldRow(m: Compressed, n: nat, b: seq<real>, mem: Memory, y: seq<real>, r: nat)
    requires LowerRows(m, n) && r < n == |y| && n <= |b| && Holds(mem, y) && RowHolds(m, n, b, mem, r)
    ensures Dot(CsrRow(m, n, r), y, n) == b[r]
  {
    LowerRowEntries(m, n, r);
    var s, f := OffDiagonal(m, n, r), CsrRow(m, n, r);
    GatherFromHeld(m, s.lo, s.hi, mem, y);
    GatherIsDot(m, s.lo, s.hi, y, r, f);
    DotNext(f, y, r);
    DotTail(f, y, r + 1, n);
  }

  /** The source order 0..n-1 is one such order. */
  lemma SourceOrderRespects(m: Compressed, n: nat)
    requires LowerRows(m, n)
    ensures Runs(seq(n, (i: int) => i), 0, n) && RespectsReads(m, n, seq(n, (i: int) => i))
  {
    var order := seq(n, (i: int) => i);
    forall i | 0 <= i < n
      ensures i in order
    {
      assert order[i] == i;
    }
    forall k | 0 <= k < n
      ensures ReadsOnly(m, n, order[k], order[..k])
    {
      assert LowerRow(m, n, k);
      forall c | c in SolveReads(m, n, k)
        ensures c.idx in order[..k]
      {
        assert order[..k][c.idx] == c.idx;
      }
    }
  }
}
