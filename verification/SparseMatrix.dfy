/**
 Compressed sparse matrices and the dense products they stand for. The same
 three arrays are read by rows (CSR) or by columns (CSC); duplicate entries add up.
 Values are exact reals.
 */
module SparseMatrices {
  datatype Compressed = Compressed(ptr: seq<int>, idx: seq<int>, val: seq<real>) {
    /** Lines 0..n-1 occupy consecutive, in-bounds ranges of positions. */
    ghost predicate Valid(n: nat) {
      && |ptr| > n && 0 <= ptr[0] && ptr[n] <= |idx| && ptr[n] <= |val|
      && forall i, j :: 0 <= i <= j <= n ==> ptr[i] <= ptr[j]
    }

    ghost predicate InBounds(lo: int, hi: int) {
      0 <= lo <= hi <= |idx| && hi <= |val|
    }
  }

  // ---------- Sums ----------

  /** A product under a name, so that equal factors give equal products without arithmetic. */
  function Times(a: real, b: real): real {
    a * b
  }

  /** Sum of f(c) * x[c] for c < k. */
  ghost function Dot(f: int -> real, x: seq<real>, k: nat): real
    requires k <= |x|
  {
    if k == 0 then 0.0 else Dot(f, x, k - 1) + Times(f(k - 1), x[k - 1])
  }

  lemma {:induction false} DotSame(f: int -> real, g: int -> real, x: seq<real>, y: seq<real>, k: nat)
    requires k <= |x| && k <= |y|
    requires forall c :: 0 <= c < k ==> f(c) == g(c) && x[c] == y[c]
    ensures Dot(f, x, k) == Dot(g, y, k)
  {
    if k > 0 {
      DotSame(f, g, x, y, k - 1);
    }
  }

  /** Adding v to one coefficient adds v times one component. */
  lemma {:induction false} DotBump(f: int -> real, g: int -> real, x: seq<real>, k: nat, at: int, v: real)
    requires k <= |x|
    requires forall c :: 0 <= c < k ==> g(c) == f(c) + if c == at then v else 0.0
    ensures Dot(g, x, k) == Dot(f, x, k) + if 0 <= at < k then Times(v, x[at]) else 0.0
  {
    if k > 0 {
      DotBump(f, g, x, k - 1, at, v);
    }
  }

  lemma {:induction false} DotTail(f: int -> real, x: seq<real>, k: nat, n: nat)
    requires k <= n <= |x|
    requires forall c :: k <= c < n ==> f(c) == 0.0
    ensures Dot(f, x, n) == Dot(f, x, k)
  {
    if k < n {
      DotTail(f, x, k, n - 1);
    }
  }

  lemma {:induction false} DotZero(f: int -> real, x: seq<real>, k: nat)
    requires k <= |x| && forall c :: 0 <= c < k ==> f(c) == 0.0
    ensures Dot(f, x, k) == 0.0
  {
    DotTail(f, x, 0, k);
  }

  // ---------- Entries ----------

  /** Sum of the values at positions lo..hi-1 whose index is k. */
  function EntrySum(m: Compressed, lo: int, hi: int, k: int): real
    requires m.InBounds(lo, hi)
    decreases hi
  {
    if lo == hi then 0.0 else EntrySum(m, lo, hi - 1, k) + if m.idx[hi - 1] == k then m.val[hi - 1] else 0.0
  }

  /** Entry k of a line: the matrix element at (line, k) for CSR and at (k, line) for CSC. */
  ghost function Entry(m: Compressed, n: nat, line: int, k: int): real
    requires m.Valid(n)
  {
    if 0 <= line < n then EntrySum(m, m.ptr[line], m.ptr[line + 1], k) else 0.0
  }

  ghost function CscRow(m: Compressed, n: nat, r: int): int -> real
    requires m.Valid(n)
  {
    (c: int) => Entry(m, n, c, r)
  }

  ghost function CsrRow(m: Compressed, n: nat, r: int): int -> real
    requires m.Valid(n)
  {
    (c: int) => Entry(m, n, r, c)
  }

  /** The two structures denote the same rows x cols matrix. */
  ghost predicate SameMatrix(csc: Compressed, csr: Compressed, rows: nat, cols: nat)
    requires csc.Valid(cols) && csr.Valid(rows)
  {
    forall r, c :: 0 <= r < rows && 0 <= c < cols ==> Entry(csc, cols, c, r) == Entry(csr, rows, r, c)
  }

  /** No index k in the range means no entry k. */
  lemma {:induction false} EntrySumAbsent(m: Compressed, lo: int, hi: int, k: int)
    requires m.InBounds(lo, hi) && forall p :: lo <= p < hi ==> m.idx[p] != k
    ensures EntrySum(m, lo, hi, k) == 0.0
    decreases hi
  {
    if lo < hi {
      EntrySumAbsent(m, lo, hi - 1, k);
    }
  }

  lemma {:induction false} EntrySumFirst(m: Compressed, lo: int, hi: int, k: int)
    requires m.InBounds(lo, hi) && lo < hi
    ensures EntrySum(m, lo, hi, k) == (if m.idx[lo] == k then m.val[lo] else 0.0) + EntrySum(m, lo + 1, hi, k)
    decreases hi
  {
    if lo + 1 < hi {
      EntrySumFirst(m, lo, hi - 1, k);
    } else {
      assert EntrySum(m, lo, lo, k) == 0.0;
    }
  }

  /** Sum of val[p] * x[idx[p]] over the positions lo..hi-1. */
  function Gather(m: Compressed, lo: int, hi: int, x: seq<real>): real
    requires m.InBounds(lo, hi) && forall p :: lo <= p < hi ==> 0 <= m.idx[p] < |x|
    decreases hi
  {
    if lo == hi then 0.0 else Gather(m, lo, hi - 1, x) + Times(m.val[hi - 1], x[m.idx[hi - 1]])
  }

  ghost function EntrySums(m: Compressed, lo: int, hi: int): int -> real
    requires m.InBounds(lo, hi)
  {
    (c: int) => EntrySum(m, lo, hi, c)
  }

  lemma EntrySumLast(m: Compressed, lo: int, hi: int, c: int)
    requires m.InBounds(lo, hi) && lo < hi
    ensures EntrySum(m, lo, hi, c) == EntrySum(m, lo, hi - 1, c) + if c == m.idx[hi - 1] then m.val[hi - 1] else 0.0
  {
  }

  /** Gathering by position is the dense product of the entries, duplicates included. */
  lemma {:induction false} GatherIsDot(m: Compressed, lo: int, hi: int, x: seq<real>, n: nat, f: int -> real)
    requires m.InBounds(lo, hi) && n <= |x| && forall p :: lo <= p < hi ==> 0 <= m.idx[p] < n
    requires forall c :: 0 <= c < n ==> f(c) == EntrySum(m, lo, hi, c)
    ensures Gather(m, lo, hi, x) == Dot(f, x, n)
    decreases hi
  {
    if lo == hi {
      DotZero(f, x, n);
    } else {
      var g, at, v := EntrySums(m, lo, hi - 1), m.idx[hi - 1], m.val[hi - 1];
      GatherIsDot(m, lo, hi - 1, x, n, g);
      forall c | 0 <= c < n
        ensures f(c) == g(c) + if c == at then v else 0.0
      {
        EntrySumLast(m, lo, hi, c);
      }
      DotBump(g, f, x, n, at, v);
    }
  }

  // ---------- Triangular systems ----------

  /** rows is lower triangular with a nonzero diagonal. */
  ghost predicate LowerTriangular(rows: int -> int -> real, n: nat) {
    && (forall r, c :: 0 <= r < c < n ==> rows(r)(c) == 0.0)
    && forall r :: 0 <= r < n ==> rows(r)(r) != 0.0
  }

  ghost predicate Solves(rows: int -> int -> real, n: nat, x: seq<real>, b: seq<real>)
    requires n <= |x| && n <= |b|
  {
    forall r :: 0 <= r < n ==> Dot(rows(r), x, n) == b[r]
  }

  lemma {:induction false} SolutionsAgreeUpTo(rows: int -> int -> real, n: nat, x: seq<real>, y: seq<real>,
                                              b: seq<real>, k: nat)
    requires n <= |x| && n <= |y| && n <= |b| && k <= n
    requires LowerTriangular(rows, n) && Solves(rows, n, x, b) && Solves(rows, n, y, b)
    ensures x[..k] == y[..k]
  {
    if k > 0 {
      SolutionsAgreeUpTo(rows, n, x, y, b, k - 1);
      var r, f := k - 1, rows(k - 1);
      DotTail(f, x, k, n);
      DotTail(f, y, k, n);
      assert forall c :: 0 <= c < r ==> x[c] == x[..r][c] == y[..r][c] == y[c];
      DotSame(f, f, x, y, r);
      assert Times(f(r), x[r]) == Times(f(r), y[r]);
      CancelFactor(f(r), x[r], y[r]);
    }
  }

  lemma CancelFactor(a: real, x: real, y: real)
    requires a != 0.0 && Times(a, x) == Times(a, y)
    ensures x == y
  {
    assert a * (x - y) == 0.0;
  }

  /** A triangular system with a nonzero diagonal has one solution. */
  lemma UniqueSolution(rows: int -> int -> real, n: nat, x: seq<real>, y: seq<real>, b: seq<real>)
    requires |x| == |y| == n <= |b|
    requires LowerTriangular(rows, n) && Solves(rows, n, x, b) && Solves(rows, n, y, b)
    ensures x == y
  {
    SolutionsAgreeUpTo(rows, n, x, y, b, n);
    assert x[..n] == x && y[..n] == y;
  }
}
