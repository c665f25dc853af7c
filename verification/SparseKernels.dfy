/**
 The sparse kernels the driver analyses, as in-place loops over arrays:
 data/fs_csc.c, IEGenLib/data/Forward-Solve_CSR/forwSolCSR.c,
 IEGenLib/data/GAXPY/gaxpy.cpp and data/spMV_Mul_csr.c.
 */
module SparseKernels {
  import opened SparseMatrices

  // ---------- y += A * x ----------

  /** Column-oriented y += A * x with scattered writes. */
  method Gaxpy(m: Compressed, n: nat, x: seq<real>, y: array<real>)
    requires m.Valid(n) && n <= |x|
    requires forall p :: m.ptr[0] <= p < m.ptr[n] ==> 0 <= m.idx[p] < y.Length
    modifies y
    ensures forall r :: 0 <= r < y.Length ==> y[r] == old(y[r]) + Dot(CscRow(m, n, r), x, n)
  {
    ghost var y0 := y[..];
    for j := 0 to n
      invariant forall r :: 0 <= r < y.Length ==> y[..][r] == y0[r] + Dot(CscRow(m, n, r), x, j)
    {
      assert m.ptr[0] <= m.ptr[j] <= m.ptr[j + 1] <= m.ptr[n];
      ghost var before := y[..];
      ScatterColumn(m, m.ptr[j], m.ptr[j + 1], x[j], y);
      forall r | 0 <= r < y.Length
        ensures y[..][r] == y0[r] + Dot(CscRow(m, n, r), x, j + 1)
      {
        assert Dot(CscRow(m, n, r), x, j + 1) == Dot(CscRow(m, n, r), x, j) + Times(Entry(m, n, j, r), x[j]);
        assert y[r] == before[r] + Times(Entry(m, n, j, r), x[j]);
      }
    }
  }

  /** The inner loop: adds a column times xj. */
  method ScatterColumn(m: Compressed, lo: int, hi: int, xj: real, y: array<real>)
    requires m.InBounds(lo, hi) && forall p :: lo <= p < hi ==> 0 <= m.idx[p] < y.Length
    modifies y
    ensures forall r :: 0 <= r < y.Length ==> y[r] == old(y[r]) + Times(EntrySum(m, lo, hi, r), xj)
  {
    ghost var before := y[..];
    for p := lo to hi
      invariant Scattered(m, lo, p, xj, before, y[..])
    {
      ghost var current := y[..];
      y[m.idx[p]] := y[m.idx[p]] + m.val[p] * xj;
      ScatterStep(m, lo, p, xj, before, current);
      assert y[..] == current[m.idx[p] := current[m.idx[p]] + Times(m.val[p], xj)];
    }
  }

  ghost predicate Scattered(m: Compressed, lo: int, p: int, xj: real, before: seq<real>, current: seq<real>)
    requires m.InBounds(lo, p)
  {
    |current| == |before| && forall r :: 0 <= r < |before| ==>
      current[r] == before[r] + Times(EntrySum(m, lo, p, r), xj)
  }

  lemma ScatterEntry(m: Compressed, lo: int, p: int, xj: real, before: seq<real>, current: seq<real>, r: int)
    requires m.InBounds(lo, p + 1) && lo <= p && 0 <= r < |before| == |current|
    requires current[r] == before[r] + Times(EntrySum(m, lo, p, r), xj)
    ensures (if r == m.idx[p] then current[r] + Times(m.val[p], xj)
            else current[r]) == before[r] + Times(EntrySum(m, lo, p + 1, r), xj)
  {
    var e, e' := EntrySum(m, lo, p, r), EntrySum(m, lo, p + 1, r);
    if r == m.idx[p] {
      AddTerm(current[r], before[r], e, m.val[p], e', xj);
    } else {
      assert e' == e;
    }
  }

  lemma ScatterStep(m: Compressed, lo: int, p: int, xj: real, before: seq<real>, current: seq<real>)
    requires m.InBounds(lo, p + 1) && lo <= p && Scattered(m, lo, p, xj, before, current) && 0 <= m.idx[p] < |before|
    ensures Scattered(m, lo, p + 1, xj, before, current[m.idx[p] := current[m.idx[p]] + Times(m.val[p], xj)])
  {
    forall r | 0 <= r < |before|
      ensures current[m.idx[p] := current[m.idx[p]] + Times(m.val[p], xj)][r] ==
              before[r] + Times(EntrySum(m, lo, p + 1, r), xj)
    {
      ScatterEntry(m, lo, p, xj, before, current, r);
    }
  }

  lemma AddTerm(c: real, b: real, e: real, v: real, e': real, x: real)
    requires c == b + Times(e, x) && e' == e + v
    ensures c + Times(v, x) == b + Times(e', x)
  {
  }

  /** Row-oriented y += A * x. */
  method SpmvCsr(m: Compressed, n: nat, x: seq<real>, y: array<real>)
    requires m.Valid(n) && n <= y.Length
    requires forall p :: m.ptr[0] <= p < m.ptr[n] ==> 0 <= m.idx[p] < |x|
    modifies y
    ensures forall r :: 0 <= r < n ==> y[r] == old(y[r]) + Dot(CsrRow(m, n, r), x, |x|)
    ensures forall r :: n <= r < y.Length ==> y[r] == old(y[r])
  {
    for i := 0 to n
      invariant forall r :: 0 <= r < i ==> y[r] == old(y[r]) + Dot(CsrRow(m, n, r), x, |x|)
      invariant forall r :: i <= r < y.Length ==> y[r] == old(y[r])
    {
      assert m.ptr[0] <= m.ptr[i] <= m.ptr[i + 1] <= m.ptr[n];
      for j := m.ptr[i] to m.ptr[i + 1]
        invariant forall r :: 0 <= r < i ==> y[r] == old(y[r]) + Dot(CsrRow(m, n, r), x, |x|)
        invariant forall r :: i < r < y.Length ==> y[r] == old(y[r])
        invariant y[i] == old(y[i]) + Gather(m, m.ptr[i], j, x)
      {
        y[i] := y[i] + m.val[j] * x[m.idx[j]];
      }
      GatherIsDot(m, m.ptr[i], m.ptr[i + 1], x, |x|, CsrRow(m, n, i));
    }
  }

  /** The column scatter and the row gather compute the same y when their structures denote the same matrix. */
  lemma ScatterEqualsGather(csc: Compressed, csr: Compressed, rows: nat, cols: nat, x: seq<real>, y: seq<real>,
                            scattered: seq<real>, gathered: seq<real>)
    requires csc.Valid(cols) && csr.Valid(rows) && SameMatrix(csc, csr, rows, cols)
    requires |x| == cols && |y| == |scattered| == |gathered| == rows
    requires forall r :: 0 <= r < rows ==> scattered[r] == y[r] + Dot(CscRow(csc, cols, r), x, cols)
    requires forall r :: 0 <= r < rows ==> gathered[r] == y[r] + Dot(CsrRow(csr, rows, r), x, cols)
    ensures scattered == gathered
  {
    forall r | 0 <= r < rows
      ensures scattered[r] == gathered[r]
    {
      DotSame(CscRow(csc, cols, r), CsrRow(csr, rows, r), x, x, cols);
    }
  }

  // ---------- Forward solve by columns ----------

  /** Each column holds its nonzero diagonal first and only rows below it after that. */
  ghost predicate LowerColumns(m: Compressed, n: nat) {
    m.Valid(n) && forall j :: 0 <= j < n ==> LowerColumn(m, n, j)
  }

  ghost predicate LowerColumn(m: Compressed, n: nat, j: nat)
    requires m.Valid(n) && j < n
  {
    && m.ptr[j] < m.ptr[j + 1] && m.idx[m.ptr[j]] == j && m.val[m.ptr[j]] != 0.0
    && forall p :: m.ptr[j] < p < m.ptr[j + 1] ==> j < m.idx[p] < n
  }

  ghost function CscRows(m: Compressed, n: nat): int -> int -> real
    requires m.Valid(n)
  {
    (r: int) => CscRow(m, n, r)
  }

  lemma LowerColumnEntries(m: Compressed, n: nat, j: nat)
    requires LowerColumns(m, n) && j < n
    ensures LowerColumn(m, n, j) && Entry(m, n, j, j) == m.val[m.ptr[j]] != 0.0
    ensures forall r :: r < j ==> Entry(m, n, j, r) == 0.0
    ensures forall r :: r > j ==> Entry(m, n, j, r) == EntrySum(m, m.ptr[j] + 1, m.ptr[j + 1], r)
  {
    assert LowerColumn(m, n, j);
    var lo, hi := m.ptr[j], m.ptr[j + 1];
    EntrySumFirst(m, lo, hi, j);
    EntrySumAbsent(m, lo + 1, hi, j);
    forall r | r < j
      ensures Entry(m, n, j, r) == 0.0
    {
      EntrySumAbsent(m, lo, hi, r);
    }
    forall r | r > j
      ensures Entry(m, n, j, r) == EntrySum(m, lo + 1, hi, r)
    {
      EntrySumFirst(m, lo, hi, r);
    }
  }

  lemma ColumnsTail(m: Compressed, n: nat, r: nat)
    requires LowerColumns(m, n) && r < n
    ensures forall c :: r < c < n ==> CscRow(m, n, r)(c) == 0.0
  {
    forall c | r < c < n
      ensures CscRow(m, n, r)(c) == 0.0
    {
      LowerColumnEntries(m, n, c);
    }
  }

  lemma LowerColumnsTriangular(m: Compressed, n: nat)
    requires LowerColumns(m, n)
    ensures LowerTriangular(CscRows(m, n), n)
  {
    forall r, c | 0 <= r < c < n
      ensures CscRows(m, n)(r)(c) == 0.0
    {
      LowerColumnEntries(m, n, c);
    }
    forall r | 0 <= r < n
      ensures CscRows(m, n)(r)(r) != 0.0
    {
      LowerColumnEntries(m, n, r);
    }
  }

  /** Column j times x[j] has been subtracted from the rows below j; nothing else changed. */
  ghost predicate ColumnEliminated(m: Compressed, n: nat, j: nat, before: seq<real>, x: seq<real>)
    requires m.Valid(n) && j < n <= |before|
  {
    && |x| == |before|
    && (forall r :: 0 <= r <= j || n <= r < |x| ==> x[r] == before[r])
    && (forall r :: j < r < n ==> x[r] == before[r] - Times(Entry(m, n, j, r), before[j]))
  }

  /** The inner loop: subtracts column j times x[j] from the rows below j. */
  method EliminateColumn(m: Compressed, n: nat, j: nat, x: array<real>)
    requires LowerColumns(m, n) && j < n <= x.Length
    modifies x
    ensures ColumnEliminated(m, n, j, old(x[..]), x[..])
  {
    assert LowerColumn(m, n, j);
    ghost var before, lo := x[..], m.ptr[j] + 1;
    for p := m.ptr[j] + 1 to m.ptr[j + 1]
      invariant x[j] == before[j]
      invariant Scattered(m, lo, p, -before[j], before, x[..])
    {
      ghost var current := x[..];
      assert m.val[p] * x[j] == Times(m.val[p], x[j]);
      x[m.idx[p]] := x[m.idx[p]] - m.val[p] * x[j];
      EliminateStep(m, lo, p, before[j], before, current);
      assert x[..] == current[m.idx[p] := current[m.idx[p]] - Times(m.val[p], before[j])];
    }
    Eliminated(m, n, j, before, x[..]);
  }

  lemma NegateProduct(a: real, b: real)
    ensures Times(a, -b) == -Times(a, b)
  {
  }

  lemma EliminateStep(m: Compressed, lo: int, p: int, xj: real, before: seq<real>, current: seq<real>)
    requires m.InBounds(lo, p + 1) && lo <= p && Scattered(m, lo, p, -xj, before, current) && 0 <= m.idx[p] < |before|
    ensures Scattered(m, lo, p + 1, -xj, before, current[m.idx[p] := current[m.idx[p]] - Times(m.val[p], xj)])
  {
    ScatterStep(m, lo, p, -xj, before, current);
    NegateProduct(m.val[p], xj);
  }

  lemma Eliminated(m: Compressed, n: nat, j: nat, before: seq<real>, x: seq<real>)
    requires LowerColumns(m, n) && j < n && LowerColumn(m, n, j) && n <= |before|
    requires Scattered(m, m.ptr[j] + 1, m.ptr[j + 1], -before[j], before, x)
    ensures ColumnEliminated(m, n, j, before, x)
  {
    LowerColumnEntries(m, n, j);
    var lo, hi := m.ptr[j] + 1, m.ptr[j + 1];
    forall r | 0 <= r <= j || n <= r < |x|
      ensures x[r] == before[r]
    {
      EntrySumAbsent(m, lo, hi, r);
    }
    forall r | j < r < n
      ensures x[r] == before[r] - Times(Entry(m, n, j, r), before[j])
    {
      NegateProduct(EntrySum(m, lo, hi, r), before[j]);
    }
  }

  /** The state of fs_csc after columns 0..j-1: those rows are solved, the others hold their residual. */
  ghost predicate ColumnsDone(m: Compressed, n: nat, x: seq<real>, b: seq<real>, j: nat)
    requires m.Valid(n) && j <= n <= |x| && |b| == |x|
  {
    && (forall r :: 0 <= r < j ==> Dot(CscRow(m, n, r), x, r + 1) == b[r])
    && (forall r :: j <= r < n ==> x[r] == b[r] - Dot(CscRow(m, n, r), x, j))
    && (forall r :: n <= r < |x| ==> x[r] == b[r])
  }

  lemma DotNext(f: int -> real, x: seq<real>, k: nat)
    requires k < |x|
    ensures Dot(f, x, k + 1) == Dot(f, x, k) + Times(f(k), x[k])
  {
  }

  /** The solved entry makes row j's product equal to b. */
  lemma PivotRow(f: int -> real, x: seq<real>, x': seq<real>, b: real, j: nat, d: real)
    requires j < |x| == |x'| && f(j) == d
    requires x[j] == b - Dot(f, x, j)
    requires Times(d, x'[j]) == x[j] && forall r :: 0 <= r < j ==> x'[r] == x[r]
    ensures Dot(f, x', j + 1) == b
  {
    DotSame(f, f, x', x, j);
    DotNext(f, x', j);
  }

  /** A row below j keeps its residual. */
  lemma RowBelow(m: Compressed, n: nat, x: seq<real>, x': seq<real>, b: real, j: nat, r: nat)
    requires m.Valid(n) && j < r < n <= |x| == |x'|
    requires x[r] == b - Dot(CscRow(m, n, r), x, j)
    requires x'[r] == x[r] - Times(Entry(m, n, j, r), x'[j]) && forall i :: 0 <= i < j ==> x'[i] == x[i]
    ensures x'[r] == b - Dot(CscRow(m, n, r), x', j + 1)
  {
    var f := CscRow(m, n, r);
    DotSame(f, f, x', x, j);
    DotNext(f, x', j);
  }

  lemma ColumnStep(m: Compressed, n: nat, x: seq<real>, mid: seq<real>, x': seq<real>, b: seq<real>, j: nat)
    requires LowerColumns(m, n) && j < n && LowerColumn(m, n, j) && n <= |x| && |mid| == |b| == |x|
    requires ColumnsDone(m, n, x, b, j)
    requires mid == x[j := x[j] / m.val[m.ptr[j]]]
    requires ColumnEliminated(m, n, j, mid, x')
    ensures ColumnsDone(m, n, x', b, j + 1)
  {
    forall r | 0 <= r < j + 1
      ensures Dot(CscRow(m, n, r), x', r + 1) == b[r]
    {
      if r < j {
        DotSame(CscRow(m, n, r), CscRow(m, n, r), x', x, r + 1);
      } else {
        LowerColumnEntries(m, n, j);
        DivideBack(x[j], m.val[m.ptr[j]]);
        PivotRow(CscRow(m, n, j), x, x', b[j], j, m.val[m.ptr[j]]);
      }
    }
    forall r | j < r < n
      ensures x'[r] == b[r] - Dot(CscRow(m, n, r), x', j + 1)
    {
      RowBelow(m, n, x, x', b[r], j, r);
    }
  }

  /** In-place forward solve by columns: the final x solves L * x = b for the initial contents b. */
  method ForwardSolveCsc(m: Compressed, n: nat, x: array<real>)
    requires LowerColumns(m, n) && n <= x.Length
    modifies x
    ensures Solves(CscRows(m, n), n, x[..], old(x[..]))
    ensures forall r :: n <= r < x.Length ==> x[r] == old(x[r])
  {
    ghost var b := x[..];
    for j := 0 to n
      invariant ColumnsDone(m, n, x[..], b, j)
    {
      ghost var before := x[..];
      assert LowerColumn(m, n, j);
      x[j] := x[j] / m.val[m.ptr[j]];
      ghost var mid := x[..];
      assert mid == before[j := before[j] / m.val[m.ptr[j]]];
      EliminateColumn(m, n, j, x);
      ColumnStep(m, n, before, mid, x[..], b, j);
    }
    AllColumnsDone(m, n, x[..], b);
  }

  lemma AllColumnsDone(m: Compressed, n: nat, x: seq<real>, b: seq<real>)
    requires LowerColumns(m, n) && n <= |x| == |b| && ColumnsDone(m, n, x, b, n)
    ensures Solves(CscRows(m, n), n, x, b)
  {
    forall r | 0 <= r < n
      ensures Dot(CscRows(m, n)(r), x, n) == b[r]
    {
      ColumnsTail(m, n, r);
      DotTail(CscRow(m, n, r), x, r + 1, n);
    }
  }

  // ---------- Forward solve by rows ----------

  /** Each row holds its nonzero diagonal last and only columns before it. */
  ghost predicate LowerRows(m: Compressed, n: nat) {
    m.Valid(n) && forall i :: 0 <= i < n ==> LowerRow(m, n, i)
  }

  ghost predicate LowerRow(m: Compressed, n: nat, i: nat)
    requires m.Valid(n) && i < n
  {
    var last := m.ptr[i + 1] - 1;
    && m.ptr[i] <= last && m.idx[last] == i && m.val[last] != 0.0
    && forall p :: m.ptr[i] <= p < last ==> 0 <= m.idx[p] < i
  }

  ghost function CsrRows(m: Compressed, n: nat): int -> int -> real
    requires m.Valid(n)
  {
    (r: int) => CsrRow(m, n, r)
  }

  lemma LowerRowEntries(m: Compressed, n: nat, i: nat)
    requires LowerRows(m, n) && i < n
    ensures LowerRow(m, n, i) && Entry(m, n, i, i) == m.val[m.ptr[i + 1] - 1] != 0.0
    ensures forall c :: c > i ==> Entry(m, n, i, c) == 0.0
    ensures forall c :: 0 <= c < i ==> Entry(m, n, i, c) == EntrySum(m, m.ptr[i], m.ptr[i + 1] - 1, c)
  {
    assert LowerRow(m, n, i);
    var lo, last := m.ptr[i], m.ptr[i + 1] - 1;
    EntrySumAbsent(m, lo, last, i);
    forall c | c > i
      ensures Entry(m, n, i, c) == 0.0
    {
      EntrySumAbsent(m, lo, last + 1, c);
    }
  }

  lemma LowerRowsTriangular(m: Compressed, n: nat)
    requires LowerRows(m, n)
    ensures LowerTriangular(CsrRows(m, n), n)
  {
    forall r, c | 0 <= r < c < n
      ensures CsrRows(m, n)(r)(c) == 0.0
    {
      LowerRowEntries(m, n, r);
    }
    forall r | 0 <= r < n
      ensures CsrRows(m, n)(r)(r) != 0.0
    {
      LowerRowEntries(m, n, r);
    }
  }

  lemma DivideBack(a: real, d: real)
    requires d != 0.0
    ensures Times(d, a / d) == a
  {
  }

  /** One row: its residual divided by its diagonal makes the row's product equal to b[i]. */
  lemma RowSolved(m: Compressed, n: nat, i: nat, x: seq<real>, x': seq<real>, b: real)
    requires LowerRows(m, n) && i < n && LowerRow(m, n, i) && n <= |x| && |x'| == |x|
    requires forall r :: 0 <= r < i ==> x'[r] == x[r]
    requires x'[i] == (b - Gather(m, m.ptr[i], m.ptr[i + 1] - 1, x)) / m.val[m.ptr[i + 1] - 1]
    ensures Dot(CsrRow(m, n, i), x', i + 1) == b
  {
    var f, diagonal, rest := CsrRow(m, n, i), m.val[m.ptr[i + 1] - 1], Gather(m, m.ptr[i], m.ptr[i + 1] - 1, x);
    LowerRowEntries(m, n, i);
    assert rest == Dot(f, x', i) by {
      GatherIsDot(m, m.ptr[i], m.ptr[i + 1] - 1, x, i, f);
      DotSame(f, f, x', x, i);
    }
    assert Dot(f, x', i + 1) == Dot(f, x', i) + Times(diagonal, x'[i]);
    DivideBack(b - rest, diagonal);
  }

  /** Forward solve by rows: the final x solves L * x = b. */
  method ForwardSolveCsr(m: Compressed, n: nat, b: seq<real>, x: array<real>)
    requires LowerRows(m, n) && n <= x.Length && n <= |b|
    modifies x
    ensures Solves(CsrRows(m, n), n, x[..], b)
    ensures forall r :: n <= r < x.Length ==> x[r] == old(x[r])
  {
    for i := 0 to n
      invariant forall r :: 0 <= r < i ==> Dot(CsrRow(m, n, r), x[..], r + 1) == b[r]
      invariant forall r :: n <= r < x.Length ==> x[r] == old(x[r])
    {
      ghost var before := x[..];
      assert LowerRow(m, n, i);
      var tmp := b[i];
      for j := m.ptr[i] to m.ptr[i + 1] - 1
        invariant x[..] == before
        invariant tmp == b[i] - Gather(m, m.ptr[i], j, before)
      {
        tmp := tmp - m.val[j] * x[m.idx[j]];
      }
      x[i] := tmp / m.val[m.ptr[i + 1] - 1];
      RowSolved(m, n, i, before, x[..], b[i]);
      forall r | 0 <= r < i
        ensures Dot(CsrRow(m, n, r), x[..], r + 1) == b[r]
      {
        DotSame(CsrRow(m, n, r), CsrRow(m, n, r), x[..], before, r + 1);
      }
    }
    forall r | 0 <= r < n
      ensures Dot(CsrRows(m, n)(r), x[..], n) == b[r]
    {
      LowerRowEntries(m, n, r);
      DotTail(CsrRow(m, n, r), x[..], r + 1, n);
    }
  }

  /** Both forward solves give the same x when their structures denote the same matrix. */
  lemma ForwardSolvesAgree(csc: Compressed, csr: Compressed, n: nat, b: seq<real>, x: seq<real>, y: seq<real>)
    requires LowerColumns(csc, n) && csr.Valid(n) && SameMatrix(csc, csr, n, n)
    requires |x| == |y| == n <= |b|
    requires Solves(CscRows(csc, n), n, x, b) && Solves(CsrRows(csr, n), n, y, b)
    ensures x == y
  {
    LowerColumnsTriangular(csc, n);
    forall r | 0 <= r < n
      ensures Dot(CscRows(csc, n)(r), y, n) == b[r]
    {
      DotSame(CscRow(csc, n, r), CsrRow(csr, n, r), y, y, n);
      assert CsrRows(csr, n)(r) == CsrRow(csr, n, r);
    }
    UniqueSolution(CscRows(csc, n), n, x, y, b);
  }
}
