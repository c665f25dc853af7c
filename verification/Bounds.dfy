// Results, extended integers and lexicographic order, shared by every model in
// this project.

/** A returned value or one of the exceptions the C++ code throws. */
module Outcomes {
  // std::invalid_argument, ir_error and loop_error.
  datatype Error = InvalidArgument | IrError | LoopError

  datatype Result<+T> = Ok(value: T) | Throw(error: Error) {
    predicate IsFailure() {
      Throw?
    }

    function PropagateFailure<U>(): Result<U>
      requires Throw?
    {
      Throw(error)
    }

    function Extract(): T
      requires Ok?
    {
      value
    }

    function GetOr(default: T): T {
      if Ok? then value else default
    }
  }
}

/** One end of a distance interval: an integer, or the -posInfinity / posInfinity sentinel. */
module Bounds {
  datatype Bound = NegInf | Fin(v: int) | PosInf {
    predicate AboveZero() {
      PosInf? || (Fin? && v > 0)
    }

    predicate BelowZero() {
      NegInf? || (Fin? && v < 0)
    }

    // this <= k
    predicate AtMost(k: int) {
      NegInf? || (Fin? && v <= k)
    }

    // k <= this
    predicate AtLeast(k: int) {
      PosInf? || (Fin? && k <= v)
    }

    function Negated(): Bound {
      match this
      case NegInf => PosInf
      case PosInf => NegInf
      case Fin(k) => Fin(-k)
    }

    predicate Less(that: Bound) {
      match (this, that)
      case (Fin(a), Fin(b)) => a < b
      case (NegInf, _) => !that.NegInf?
      case (_, PosInf) => !this.PosInf?
      case _ => false
    }
  }

  const ZERO := Fin(0)
  const ONE := Fin(1)
  const MINUS_ONE := Fin(-1)

  /** lb and ub delimit a non-empty interval of integers. */
  predicate Interval(lb: Bound, ub: Bound) {
    && !lb.PosInf?
    && !ub.NegInf?
    && (lb.Fin? && ub.Fin? ==> lb.v <= ub.v)
  }

  predicate Within(lb: Bound, ub: Bound, k: int) {
    lb.AtMost(k) && ub.AtLeast(k)
  }

  /** The member of an interval that is closest to zero. */
  function Nearest(lb: Bound, ub: Bound): (k: int)
    requires Interval(lb, ub)
    ensures Within(lb, ub, k)
    ensures Within(lb, ub, 0) <==> k == 0
  {
    if lb.AboveZero() then lb.v else if ub.BelowZero() then ub.v else 0
  }
}

/** Integer vectors and their lexicographic sign. */
module Lexicographic {
  ghost predicate ZeroUpTo(v: seq<int>, k: nat)
    requires k <= |v|
  {
    forall i :: 0 <= i < k ==> v[i] == 0
  }

  ghost predicate PositiveAt(v: seq<int>, k: nat) {
    k < |v| && ZeroUpTo(v, k) && v[k] > 0
  }

  ghost predicate NegativeAt(v: seq<int>, k: nat) {
    k < |v| && ZeroUpTo(v, k) && v[k] < 0
  }

  ghost predicate LexPositive(v: seq<int>) {
    exists k :: PositiveAt(v, k)
  }

  ghost predicate LexNegative(v: seq<int>) {
    exists k :: NegativeAt(v, k)
  }

  ghost predicate IsZero(v: seq<int>) {
    ZeroUpTo(v, |v|)
  }

  /** Every vector has exactly one lexicographic sign. */
  lemma {:induction false} Trichotomy(v: seq<int>)
    ensures LexPositive(v) || LexNegative(v) || IsZero(v)
    ensures !(LexPositive(v) && LexNegative(v))
    ensures IsZero(v) ==> !LexPositive(v) && !LexNegative(v)
  {
    if !IsZero(v) {
      var k := FirstNonZero(v);
      assert PositiveAt(v, k) || NegativeAt(v, k);
    }
  }

  ghost function FirstNonZero(v: seq<int>): (k: nat)
    requires !IsZero(v)
    ensures k < |v| && ZeroUpTo(v, k) && v[k] != 0
  {
    FirstNonZeroFrom(v, 0)
  }

  ghost function FirstNonZeroFrom(v: seq<int>, i: nat): (k: nat)
    requires i <= |v| && ZeroUpTo(v, i) && !IsZero(v)
    ensures k < |v| && ZeroUpTo(v, k) && v[k] != 0
    decreases |v| - i
  {
    if v[i] != 0 then i else FirstNonZeroFrom(v, i + 1)
  }

  function Difference(a: seq<int>, b: seq<int>): (d: seq<int>)
    requires |a| == |b|
    ensures |d| == |a| && forall i :: 0 <= i < |a| ==> d[i] == a[i] - b[i]
  {
    seq(|a|, i requires 0 <= i < |a| => a[i] - b[i])
  }

  /** a comes before b in lexicographic order. */
  ghost predicate LexBefore(a: seq<int>, b: seq<int>)
    requires |a| == |b|
  {
    LexPositive(Difference(b, a))
  }
}

/** Permutations given as index vectors. */
module Permutations {
  ghost predicate InRange(pi: seq<int>, n: nat) {
    |pi| == n && forall i :: 0 <= i < n ==> 0 <= pi[i] < n
  }

  ghost predicate IsPermutation(pi: seq<int>, n: nat) {
    InRange(pi, n) && forall k :: 0 <= k < n ==> k in pi
  }

  /** The vector whose i-th entry is entry pi[i] of v. */
  function Rearranged<T>(v: seq<T>, pi: seq<int>): (w: seq<T>)
    requires forall i :: 0 <= i < |pi| ==> 0 <= pi[i] < |v|
    ensures |w| == |pi| && forall i :: 0 <= i < |pi| ==> w[i] == v[pi[i]]
  {
    seq(|pi|, i requires 0 <= i < |pi| => v[pi[i]])
  }

  ghost function PositionOf(pi: seq<int>, k: int): (i: nat)
    requires k in pi
    ensures i < |pi| && pi[i] == k
  {
    var i :| 0 <= i < |pi| && pi[i] == k;
    i
  }

  ghost function Inverse(pi: seq<int>, n: nat): (inv: seq<int>)
    requires IsPermutation(pi, n)
    ensures InRange(inv, n) && forall k :: 0 <= k < n ==> pi[inv[k]] == k
  {
    seq(n, k requires 0 <= k < n => PositionOf(pi, k))
  }

  /** Pigeonhole: a sequence of length n that reaches all of 0..n-1 repeats nothing. */
  lemma {:induction false} PermutationIsInjective(pi: seq<int>, n: nat, i: nat, j: nat)
    requires IsPermutation(pi, n) && i < j < n
    ensures pi[i] != pi[j]
  {
    if pi[i] == pi[j] {
      var rest := pi[..j] + pi[j + 1..];
      forall k | 0 <= k < n
        ensures k in rest
      {
        var p := PositionOf(pi, k);
        if p == j {
          assert rest[i] == k;
        } else if p < j {
          assert rest[p] == k;
        } else {
          assert rest[p - 1] == k;
        }
      }
      RangeNeedsLength(rest, n);
    }
  }

  /** A sequence that contains 0..n-1 has at least n entries. */
  lemma {:induction false} RangeNeedsLength(s: seq<int>, n: nat)
    requires forall k :: 0 <= k < n ==> k in s
    ensures n <= |s|
  {
    if n > 0 {
      var p := PositionOf(s, n - 1);
      var rest := s[..p] + s[p + 1..];
      forall k | 0 <= k < n - 1
        ensures k in rest
      {
        var q := PositionOf(s, k);
        if q < p {
          assert rest[q] == k;
        } else {
          assert rest[q - 1] == k;
        }
      }
      RangeNeedsLength(rest, n - 1);
    }
  }

  lemma {:induction false} InverseIsPermutation(pi: seq<int>, n: nat)
    requires IsPermutation(pi, n)
    ensures IsPermutation(Inverse(pi, n), n)
    ensures forall i :: 0 <= i < n ==> Inverse(pi, n)[pi[i]] == i
  {
    var inv := Inverse(pi, n);
    forall i | 0 <= i < n
      ensures inv[pi[i]] == i && i in inv
    {
      var j := inv[pi[i]];
      assert pi[j] == pi[i];
      if j < i {
        PermutationIsInjective(pi, n, j, i);
      } else if i < j {
        PermutationIsInjective(pi, n, i, j);
      }
    }
  }
}
