/**
 Dependence vectors (chill/dep.cc). A vector is a box of per-loop distance
 intervals; its meaning is the set of integer distance vectors in the box. Every
 operation below is a scan over the interval ends, and every contract is about
 the set.
 */
module DependenceVectors {
  import opened Outcomes
  import opened Bounds
  import opened Lexicographic
  import opened Permutations

  datatype DependenceType = W2R | R2W | W2W | R2R | Control | Unknown

  datatype DependenceVector = DependenceVector(
    kind: DependenceType,
    lbounds: seq<Bound>,
    ubounds: seq<Bound>,
    quasi: bool,
    scalar: bool)
  {
    ghost predicate Valid() {
      && |lbounds| == |ubounds|
      && forall i :: 0 <= i < |lbounds| ==> Interval(lbounds[i], ubounds[i])
    }

    /** v is one of the distances this vector stands for. */
    ghost predicate Contains(v: seq<int>)
      requires Valid()
    {
      && |v| == |lbounds|
      && forall i :: 0 <= i < |lbounds| ==> Within(lbounds[i], ubounds[i], v[i])
    }

    predicate IsData() {
      kind.W2R? || kind.R2W? || kind.W2W? || kind.R2R?
    }

    /** The interval test behind every query: components 0..d-1 can all be zero. */
    predicate MayBeZeroUpTo(d: nat)
      requires |lbounds| == |ubounds| && d <= |lbounds|
    {
      forall i :: 0 <= i < d ==> Within(lbounds[i], ubounds[i], 0)
    }

    /** The member of the box that is closest to zero in every component. */
    ghost function NearestMember(): (v: seq<int>)
      requires Valid()
      ensures Contains(v)
      ensures forall i :: 0 <= i < |v| ==> (Within(lbounds[i], ubounds[i], 0) <==> v[i] == 0)
    {
      seq(|lbounds|, i requires 0 <= i < |lbounds| => Nearest(lbounds[i], ubounds[i]))
    }

    /** The interval test and the question about members are the same. */
    lemma ZeroPrefixMember(d: nat)
      requires Valid() && d <= |lbounds|
      ensures MayBeZeroUpTo(d) <==> exists v :: Contains(v) && ZeroUpTo(v, d)
    {
      if MayBeZeroUpTo(d) {
        var v := NearestMember();
        assert Contains(v) && ZeroUpTo(v, d);
      }
    }

    /** A zero prefix can be followed by any admissible value of the next component. */
    lemma ZeroPrefixThen(d: nat, x: int) returns (v: seq<int>)
      requires Valid() && d < |lbounds| && MayBeZeroUpTo(d) && Within(lbounds[d], ubounds[d], x)
      ensures Contains(v) && ZeroUpTo(v, d) && v[d] == x
    {
      v := NearestMember()[d := x];
    }

    // ---------- Queries (chill/dep.cc:161-314) ----------

    method HasNegativeBeenCarriedAt(dim: int) returns (r: Result<bool>)
      requires Valid()
      ensures r.Throw? <==> !IsData()
      ensures r.Throw? ==> r.error == InvalidArgument
      ensures r.Ok? ==> (r.value <==> 0 <= dim < |lbounds| && exists v :: Contains(v) && NegativeAt(v, dim))
    {
      if !IsData() {
        return Throw(InvalidArgument);
      }
      if dim < 0 || dim >= |lbounds| {
        return Ok(false);
      }
      for i := 0 to dim
        invariant MayBeZeroUpTo(i)
      {
        if lbounds[i].AboveZero() || ubounds[i].BelowZero() {
          ZeroPrefixMember(dim);
          return Ok(false);
        }
      }
      if lbounds[dim].BelowZero() {
        ghost var v := ZeroPrefixThen(dim, if ubounds[dim].BelowZero() then ubounds[dim].v else -1);
        assert NegativeAt(v, dim);
        return Ok(true);
      }
      return Ok(false);
    }

    method HasBeenCarriedAt(dim: int) returns (r: Result<bool>)
      requires Valid()
      ensures r.Throw? <==> !IsData()
      ensures r.Throw? ==> r.error == InvalidArgument
      ensures r.Ok? ==>
                (r.value <==> 0 <= dim < |lbounds| && exists v :: Contains(v) && ZeroUpTo(v, dim) && v[dim] != 0)
    {
      if !IsData() {
        return Throw(InvalidArgument);
      }
      if dim < 0 || dim >= |lbounds| {
        return Ok(false);
      }
      for i := 0 to dim
        invariant MayBeZeroUpTo(i)
      {
        if lbounds[i].AboveZero() || ubounds[i].BelowZero() {
          ZeroPrefixMember(dim);
          return Ok(false);
        }
      }
      if lbounds[dim] != ZERO || ubounds[dim] != ZERO {
        ghost var x := NonZeroMember(lbounds[dim], ubounds[dim]);
        ghost var v := ZeroPrefixThen(dim, x);
        return Ok(true);
      }
      return Ok(false);
    }

    method HasBeenCarriedBefore(dim: int) returns (r: Result<bool>)
      requires Valid()
      ensures r.Throw? <==> !IsData()
      ensures r.Throw? ==> r.error == InvalidArgument
      ensures r.Ok? && dim < 0 ==> !r.value
      ensures r.Ok? && dim >= 0 ==>
                var d := if dim > |lbounds| then |lbounds| else dim;
                r.value <==> forall v :: Contains(v) ==> !ZeroUpTo(v, d)
    {
      if !IsData() {
        return Throw(InvalidArgument);
      }
      if dim < 0 {
        return Ok(false);
      }
      var d := if dim > |lbounds| then |lbounds| else dim;
      ZeroPrefixMember(d);
      for i := 0 to d
        invariant MayBeZeroUpTo(i)
      {
        if lbounds[i].AboveZero() {
          return Ok(true);
        }
        if ubounds[i].BelowZero() {
          return Ok(true);
        }
      }
      return Ok(false);
    }

    /** isZero(): the C++ passes size() - 1, so an empty vector is rejected. */
    method IsZeroVector() returns (r: Result<bool>)
      requires Valid()
      ensures r.Throw? <==> |lbounds| == 0
      ensures r.Ok? ==> (r.value <==> forall v :: Contains(v) ==> IsZero(v))
    {
      r := IsZeroUpTo(|lbounds| - 1);
    }

    method IsZeroUpTo(dim: int) returns (r: Result<bool>)
      requires Valid()
      ensures r.Throw? <==> !(0 <= dim < |lbounds|)
      ensures r.Throw? ==> r.error == InvalidArgument
      ensures r.Ok? ==> (r.value <==> forall v :: Contains(v) ==> ZeroUpTo(v, dim + 1))
    {
      // dim is compared as an unsigned number
      if dim < 0 || dim >= |lbounds| {
        return Throw(InvalidArgument);
      }
      for i := 0 to dim + 1
        invariant forall j :: 0 <= j < i ==> lbounds[j] == ubounds[j] == ZERO
      {
        if lbounds[i] != ZERO || ubounds[i] != ZERO {
          ghost var x := NonZeroMember(lbounds[i], ubounds[i]);
          ghost var v := NearestMember()[i := x];
          assert Contains(v) && v[i] != 0;
          return Ok(false);
        }
      }
      return Ok(true);
    }

    method IsPositive() returns (r: bool)
      requires Valid()
      ensures r <==> forall v :: Contains(v) ==> LexPositive(v)
    {
      for i := 0 to |lbounds|
        invariant forall j :: 0 <= j < i ==> lbounds[j] == ZERO
      {
        if lbounds[i] != ZERO || ubounds[i] != ZERO {
          if lbounds[i].BelowZero() {
            ghost var v := ZeroPrefixThen(i, if ubounds[i].BelowZero() then ubounds[i].v else -1);
            assert NegativeAt(v, i);
            Trichotomy(v);
            return false;
          } else if lbounds[i].AboveZero() {
            LowerScanDecides(i);
            return true;
          }
        }
      }
      ghost var v := NearestMember();
      Trichotomy(v);
      return false;
    }

    method IsNegative() returns (r: bool)
      requires Valid()
      ensures r <==> forall v :: Contains(v) ==> LexNegative(v)
    {
      for i := 0 to |lbounds|
        invariant forall j :: 0 <= j < i ==> ubounds[j] == ZERO
      {
        if lbounds[i] != ZERO || ubounds[i] != ZERO {
          if ubounds[i].AboveZero() {
            ghost var v := ZeroPrefixThen(i, if lbounds[i].AboveZero() then lbounds[i].v else 1);
            assert PositiveAt(v, i);
            Trichotomy(v);
            return false;
          } else if ubounds[i].BelowZero() {
            UpperScanDecides(i);
            return true;
          }
        }
      }
      ghost var v := NearestMember();
      Trichotomy(v);
      return false;
    }

    method IsAllPositive() returns (r: bool)
      requires Valid()
      ensures r <==> forall v, i :: Contains(v) && 0 <= i < |v| ==> v[i] >= 0
    {
      for i := 0 to |lbounds|
        invariant forall j :: 0 <= j < i ==> !lbounds[j].BelowZero()
      {
        if lbounds[i].BelowZero() {
          ghost var v := NearestMember()[i := if ubounds[i].BelowZero() then ubounds[i].v else -1];
          assert Contains(v) && v[i] < 0;
          return false;
        }
      }
      return true;
    }

    method IsAllNegative() returns (r: bool)
      requires Valid()
      ensures r <==> forall v, i :: Contains(v) && 0 <= i < |v| ==> v[i] <= 0
    {
      for i := 0 to |ubounds|
        invariant forall j :: 0 <= j < i ==> !ubounds[j].AboveZero()
      {
        if ubounds[i].AboveZero() {
          ghost var v := NearestMember()[i := if lbounds[i].AboveZero() then lbounds[i].v else 1];
          assert Contains(v) && v[i] > 0;
          return false;
        }
      }
      return true;
    }

    method HasPositive(dim: int) returns (r: Result<bool>)
      requires Valid()
      ensures r.Throw? <==> !(0 <= dim < |lbounds|)
      ensures r.Throw? ==> r.error == InvalidArgument
      ensures r.Ok? ==> (r.value <==> forall v :: Contains(v) ==> v[dim] > 0)
    {
      if dim < 0 || dim >= |lbounds| {
        return Throw(InvalidArgument);
      }
      ghost var v := NearestMember();
      return Ok(lbounds[dim].AboveZero());
    }

    /** Named "has negative", but true only when every distance is negative at dim. */
    method HasNegative(dim: int) returns (r: Result<bool>)
      requires Valid()
      ensures r.Throw? <==> !(0 <= dim < |lbounds|)
      ensures r.Throw? ==> r.error == InvalidArgument
      ensures r.Ok? ==> (r.value <==> forall v :: Contains(v) ==> v[dim] < 0)
    {
      if dim < 0 || dim >= |lbounds| {
        return Throw(InvalidArgument);
      }
      ghost var v := NearestMember();
      return Ok(ubounds[dim].BelowZero());
    }

    /** The dimension isCarried really looks at: a negative dim is compared as a large unsigned one. */
    function ClampedDim(dim: int): (d: nat)
      ensures d <= |lbounds|
    {
      if dim < 0 || dim > |lbounds| then |lbounds| else dim
    }

    /** The interval form of IsCarried; PosInf is the C++ default for the distance. */
    predicate CarriedWithin(dim: int, reach: Bound)
      requires |lbounds| == |ubounds|
    {
      var d := ClampedDim(dim);
      MayBeZeroUpTo(d) &&
      (d < |lbounds| ==> !reach.Less(lbounds[d]) && !ubounds[d].Less(reach.Negated()))
    }

    method IsCarried(dim: int, reach: Bound) returns (r: Result<bool>)
      requires Valid()
      ensures r.Throw? <==> !reach.AboveZero()
      ensures r.Throw? ==> r.error == InvalidArgument
      ensures r.Ok? ==> (r.value <==> CarriedWithin(dim, reach))
      ensures r.Ok? ==>
                var d := ClampedDim(dim);
                r.value <==>
                exists v :: Contains(v) && ZeroUpTo(v, d) && (d < |v| ==> Within(reach.Negated(), reach, v[d]))
    {
      if !reach.AboveZero() {
        return Throw(InvalidArgument);
      }
      var d := if dim < 0 || dim > |lbounds| then |lbounds| else dim;
      CarriedMember(dim, reach);
      for i := 0 to d
        invariant MayBeZeroUpTo(i)
      {
        if lbounds[i].AboveZero() {
          return Ok(false);
        } else if ubounds[i].BelowZero() {
          return Ok(false);
        }
      }
      if d >= |lbounds| {
        return Ok(true);
      }
      if reach.Less(lbounds[d]) {
        return Ok(false);
      } else if ubounds[d].Less(reach.Negated()) {
        return Ok(false);
      }
      return Ok(true);
    }

    lemma CarriedMember(dim: int, reach: Bound)
      requires Valid() && reach.AboveZero()
      ensures var d := ClampedDim(dim);
              CarriedWithin(dim, reach) <==>
              exists v :: Contains(v) && ZeroUpTo(v, d) && (d < |v| ==> Within(reach.Negated(), reach, v[d]))
    {
      var d := ClampedDim(dim);
      if CarriedWithin(dim, reach) {
        var v := NearestMember();
        assert Contains(v) && ZeroUpTo(v, d);
      }
    }

    // ---------- Legality of a permutation (chill/dep.cc:316-388) ----------

    ghost predicate HasLexNegative()
      requires Valid()
    {
      exists v :: Contains(v) && LexNegative(v)
    }

    /** If components 0..i-1 are never negative and component i is always positive, every member is positive. */
    lemma LowerScanDecides(i: nat)
      requires Valid() && i < |lbounds| && lbounds[i].AboveZero()
      requires forall j :: 0 <= j < i ==> !lbounds[j].BelowZero()
      ensures forall v :: Contains(v) ==> LexPositive(v) && !LexNegative(v)
    {
      forall v | Contains(v)
        ensures LexPositive(v) && !LexNegative(v)
      {
        assert v[i] > 0;
        var k := FirstNonZero(v);
        assert k <= i;
        assert PositiveAt(v, k);
        Trichotomy(v);
      }
    }

    lemma UpperScanDecides(i: nat)
      requires Valid() && i < |lbounds| && ubounds[i].BelowZero()
      requires forall j :: 0 <= j < i ==> !ubounds[j].AboveZero()
      ensures forall v :: Contains(v) ==> LexNegative(v)
    {
      forall v | Contains(v)
        ensures LexNegative(v)
      {
        assert v[i] < 0;
        var k := FirstNonZero(v);
        assert k <= i;
        assert NegativeAt(v, k);
      }
    }

    /** The vector with its dimensions rearranged by pi, before any normalization. */
    function Permuted(pi: seq<int>): (d: DependenceVector)
      requires |lbounds| == |ubounds| && forall i :: 0 <= i < |pi| ==> 0 <= pi[i] < |lbounds|
      ensures Valid() ==> d.Valid()
    {
      this.(lbounds := Rearranged(lbounds, pi), ubounds := Rearranged(ubounds, pi))
    }

    /** Permuting the interval ends permutes the set of distances. */
    lemma PermutedMeaning(pi: seq<int>, w: seq<int>)
      requires Valid() && IsPermutation(pi, |lbounds|)
      ensures Permuted(pi).Contains(w) <==> exists v :: Contains(v) && w == Rearranged(v, pi)
    {
      var n := |lbounds|;
      if Permuted(pi).Contains(w) {
        InverseIsPermutation(pi, n);
        var inv := Inverse(pi, n);
        var v := Rearranged(w, inv);
        forall k | 0 <= k < n
          ensures Within(lbounds[k], ubounds[k], v[k])
        {
          assert pi[inv[k]] == k;
        }
        assert Contains(v);
        assert w == Rearranged(v, pi);
      }
    }

    method CanPermute(pi: seq<int>) returns (r: Result<bool>)
      requires Valid()
      requires |pi| == |lbounds| ==> InRange(pi, |lbounds|)
      ensures r.Throw? <==> |pi| != |lbounds|
      ensures r.Throw? ==> r.error == InvalidArgument
      ensures r.Ok? ==> (r.value <==> !Permuted(pi).HasLexNegative())
    {
      if |pi| != |lbounds| {
        return Throw(InvalidArgument);
      }
      ghost var p := Permuted(pi);
      for i := 0 to |pi|
        invariant forall j :: 0 <= j < i ==> p.lbounds[j] == ZERO
      {
        if lbounds[pi[i]].AboveZero() {
          p.LowerScanDecides(i);
          return Ok(true);
        } else if lbounds[pi[i]].BelowZero() {
          ghost var v := p.ZeroPrefixThen(i, if p.ubounds[i].BelowZero() then p.ubounds[i].v else -1);
          assert NegativeAt(v, i);
          return Ok(false);
        }
      }
      return Ok(true);
    }

    // ---------- normalize, permute, reverse (chill/dep.cc:331-412) ----------

    /** Every member has the same lexicographic sign. */
    ghost predicate Definite()
      requires Valid()
    {
      || (forall v :: Contains(v) ==> LexPositive(v))
      || (forall v :: Contains(v) ==> LexNegative(v))
      || (forall v :: Contains(v) ==> IsZero(v))
    }

    /** The same dependence, up to its intervals. */
    predicate SameLabel(that: DependenceVector) {
      kind == that.kind && quasi == that.quasi && scalar == that.scalar
    }

    function WithInterval(i: nat, lb: Bound, ub: Bound): DependenceVector
      requires i < |lbounds| == |ubounds|
    {
      this.(lbounds := lbounds[i := lb], ubounds := ubounds[i := ub])
    }

    /** Cutting the interval of one dimension in two cuts the box in two. */
    lemma SplitInterval(i: nat, cut: int)
      requires Valid() && i < |lbounds|
      requires Within(lbounds[i], ubounds[i], cut) && Within(lbounds[i], ubounds[i], cut + 1)
      ensures WithInterval(i, lbounds[i], Fin(cut)).Valid() && WithInterval(i, Fin(cut + 1), ubounds[i]).Valid()
      ensures forall v ::
                Contains(v) <==> (WithInterval(i, lbounds[i], Fin(cut)).Contains(v)
                  || WithInterval(i, Fin(cut + 1), ubounds[i]).Contains(v))
      ensures forall v ::
                !(WithInterval(i, lbounds[i], Fin(cut)).Contains(v)
                  && WithInterval(i, Fin(cut + 1), ubounds[i]).Contains(v))
    {
      var low, high := WithInterval(i, lbounds[i], Fin(cut)), WithInterval(i, Fin(cut + 1), ubounds[i]);
      forall v
        ensures Contains(v) <==> low.Contains(v) || high.Contains(v)
        ensures !(low.Contains(v) && high.Contains(v))
      {
        if Contains(v) {
          if v[i] <= cut {
            assert low.Contains(v);
          } else {
            assert high.Contains(v);
          }
        }
        if low.Contains(v) {
          assert v[i] <= cut;
          assert Within(lbounds[i], ubounds[i], v[i]);
          forall j | 0 <= j < |lbounds|
            ensures Within(lbounds[j], ubounds[j], v[j])
          {
            assert Within(low.lbounds[j], low.ubounds[j], v[j]);
          }
        }
        if high.Contains(v) {
          assert v[i] >= cut + 1;
          forall j | 0 <= j < |lbounds|
            ensures Within(lbounds[j], ubounds[j], v[j])
          {
            assert Within(high.lbounds[j], high.ubounds[j], v[j]);
          }
        }
      }
    }

    /** After a zero prefix, an interval on one side of zero decides the sign of the whole box. */
    lemma DefiniteFrom(i: nat)
      requires Valid() && i <= |lbounds|
      requires forall j :: 0 <= j < i ==> lbounds[j] == ubounds[j] == ZERO
      requires i < |lbounds| ==> lbounds[i].AboveZero() || ubounds[i].BelowZero()
      ensures Definite()
    {
      if i == |lbounds| {
        assert forall v :: Contains(v) ==> IsZero(v);
      } else if lbounds[i].AboveZero() {
        LowerScanDecides(i);
      } else {
        UpperScanDecides(i);
      }
    }

    /** ds is an exact, pairwise disjoint cover of this box by pieces of one sign each. */
    ghost predicate IsSplit(ds: seq<DependenceVector>)
      requires Valid()
    {
      && AllValid(ds)
      && (forall k :: 0 <= k < |ds| ==> SameLabel(ds[k]) && ds[k].Definite())
      && (forall v :: AnyContains(ds, v) <==> Contains(v))
      && PairwiseDisjoint(ds)
    }

    /** One pass of the loop at dimension i: the pieces it pushes and the vector it leaves. */
    function Cut(i: nat): (c: (seq<DependenceVector>, DependenceVector))
      requires i < |lbounds| == |ubounds|
      ensures |c.1.lbounds| == |c.1.ubounds| == |lbounds|
    {
      var (negative, rest) := CutNegative(i);
      var (positive, dv) := rest.CutPositive(i);
      (negative + positive, dv)
    }

    function CutNegative(i: nat): (c: (seq<DependenceVector>, DependenceVector))
      requires i < |lbounds| == |ubounds|
      ensures |c.1.lbounds| == |c.1.ubounds| == |lbounds|
    {
      if lbounds[i].BelowZero() && !ubounds[i].BelowZero() then
        ([WithInterval(i, lbounds[i], MINUS_ONE)], WithInterval(i, ZERO, ubounds[i]))
      else
        ([], this)
    }

    function CutPositive(i: nat): (c: (seq<DependenceVector>, DependenceVector))
      requires i < |lbounds| == |ubounds|
      ensures |c.1.lbounds| == |c.1.ubounds| == |lbounds|
    {
      if lbounds[i] == ZERO && ubounds[i].AboveZero() then
        ([WithInterval(i, ONE, ubounds[i])], WithInterval(i, ZERO, ZERO))
      else
        ([], this)
    }

    /** What remains to be pushed once the scan has reached dimension i. */
    function PiecesFrom(i: nat): (ds: seq<DependenceVector>)
      requires i <= |lbounds| == |ubounds|
      decreases |lbounds| - i
    {
      if i == |lbounds| then
        [this]
      else
        var (pushed, dv) := Cut(i);
        pushed + (if dv.lbounds[i] == ZERO && dv.ubounds[i] == ZERO then dv.PiecesFrom(i + 1) else [dv])
    }

    /** A finished piece followed by a split of the rest is a split of the whole. */
    lemma SplitWithHead(piece: DependenceVector, rest: DependenceVector, ds: seq<DependenceVector>)
      requires Valid() && piece.Valid() && rest.Valid()
      requires SameLabel(piece) && SameLabel(rest) && piece.Definite()
      requires forall v :: Contains(v) <==> piece.Contains(v) || rest.Contains(v)
      requires forall v :: !(piece.Contains(v) && rest.Contains(v))
      requires rest.IsSplit(ds)
      ensures IsSplit([piece] + ds)
    {
      var all := [piece] + ds;
      forall v
        ensures AnyContains(all, v) <==> Contains(v)
      {
        AnyContainsAppend([piece], ds, v);
        assert [piece][0] == piece;
        assert AnyContains([piece], v) <==> piece.Contains(v);
      }
      forall j, k, v | 0 <= j < k < |all|
        ensures !(all[j].Contains(v) && all[k].Contains(v))
      {
        assert ds[k - 1].Contains(v) ==> AnyContains(ds, v);
      }
    }

    lemma SplitAlone()
      requires Valid() && Definite()
      ensures IsSplit([this])
    {
      assert [this][0] == this;
    }

    lemma CutNegativeSplits(i: nat, ds: seq<DependenceVector>)
      requires Valid() && i < |lbounds|
      requires forall j :: 0 <= j < i ==> lbounds[j] == ubounds[j] == ZERO
      ensures CutNegative(i).1.Valid() && SameLabel(CutNegative(i).1)
      ensures CutNegative(i).1.IsSplit(ds) ==> IsSplit(CutNegative(i).0 + ds)
    {
      var (pushed, rest) := CutNegative(i);
      if pushed == [] {
        assert pushed + ds == ds;
      } else {
        SplitInterval(i, -1);
        pushed[0].DefiniteFrom(i);
        if rest.IsSplit(ds) {
          SplitWithHead(pushed[0], rest, ds);
        }
      }
    }

    lemma CutPositiveSplits(i: nat, ds: seq<DependenceVector>)
      requires Valid() && i < |lbounds|
      requires forall j :: 0 <= j < i ==> lbounds[j] == ubounds[j] == ZERO
      ensures CutPositive(i).1.Valid() && SameLabel(CutPositive(i).1)
      ensures CutPositive(i).1.IsSplit(ds) ==> IsSplit(CutPositive(i).0 + ds)
    {
      var (pushed, rest) := CutPositive(i);
      if pushed == [] {
        assert pushed + ds == ds;
      } else {
        SplitInterval(i, 0);
        pushed[0].DefiniteFrom(i);
        if rest.IsSplit(ds) {
          SplitWithHead(pushed[0], rest, ds);
        }
      }
    }

    lemma CutSplits(i: nat, ds: seq<DependenceVector>)
      requires Valid() && i < |lbounds|
      requires forall j :: 0 <= j < i ==> lbounds[j] == ubounds[j] == ZERO
      ensures Cut(i).1.Valid()
      ensures Cut(i).1.IsSplit(ds) ==> IsSplit(Cut(i).0 + ds)
      ensures forall j :: 0 <= j < i ==> Cut(i).1.lbounds[j] == Cut(i).1.ubounds[j] == ZERO
    {
      var (negative, rest) := CutNegative(i);
      CutNegativeSplits(i, []);
      var (positive, dv) := rest.CutPositive(i);
      rest.CutPositiveSplits(i, ds);
      CutNegativeSplits(i, positive + ds);
      Regroup(negative, positive, ds);
    }

    /** Pushing the pieces of dimension i before a split of the rest. */
    lemma DimensionSplits(i: nat)
      requires Valid() && i < |lbounds|
      requires forall j :: 0 <= j < i ==> lbounds[j] == ubounds[j] == ZERO
      requires Cut(i).1.IsSplit(RestFrom(i))
      ensures IsSplit(PiecesFrom(i))
    {
      CutSplits(i, RestFrom(i));
    }

    /** A vector that is not zero at i has one sign from its low or high end on. */
    lemma DefiniteAlone(i: nat)
      requires Valid() && i < |lbounds| && (lbounds[i].AboveZero() || ubounds[i].BelowZero())
      requires forall j :: 0 <= j < i ==> lbounds[j] == ubounds[j] == ZERO
      ensures IsSplit([this])
    {
      DefiniteFrom(i);
      SplitAlone();
    }

    /** normalize from dimension i on: an exact disjoint cover by pieces of one sign. */
    lemma {:induction false} PiecesFromSplit(i: nat)
      requires Valid() && i <= |lbounds|
      requires forall j :: 0 <= j < i ==> lbounds[j] == ubounds[j] == ZERO
      ensures IsSplit(PiecesFrom(i))
      decreases |lbounds| - i
    {
      if i == |lbounds| {
        DefiniteFrom(i);
        SplitAlone();
      } else {
        var dv := Cut(i).1;
        CutSplits(i, []);
        if dv.lbounds[i] == ZERO && dv.ubounds[i] == ZERO {
          dv.PiecesFromSplit(i + 1);
        } else {
          dv.DefiniteAlone(i);
        }
        DimensionSplits(i);
      }
    }

    /** What is pushed after the pieces of dimension i. */
    function RestFrom(i: nat): (ds: seq<DependenceVector>)
      requires i < |lbounds| == |ubounds|
      ensures PiecesFrom(i) == Cut(i).0 + ds
    {
      var dv := Cut(i).1;
      if dv.lbounds[i] == ZERO && dv.ubounds[i] == ZERO then dv.PiecesFrom(i + 1) else [dv]
    }

    lemma {:induction false} PiecesFromLength(i: nat)
      requires i <= |lbounds| == |ubounds|
      ensures |PiecesFrom(i)| <= 2 * (|lbounds| - i) + 1
      decreases |lbounds| - i
    {
      if i < |lbounds| {
        var dv := Cut(i).1;
        CutLength(i);
        assert |PiecesFrom(i)| == |Cut(i).0| + |RestFrom(i)|;
        if dv.lbounds[i] == ZERO && dv.ubounds[i] == ZERO {
          dv.PiecesFromLength(i + 1);
        }
      }
    }

    lemma CutLength(i: nat)
      requires i < |lbounds| == |ubounds|
      ensures |Cut(i).0| <= 2
    {
    }

    /** The body of normalize's loop. */
    method CutDimension(i: nat) returns (pushed: seq<DependenceVector>, dv: DependenceVector)
      requires i < |lbounds| == |ubounds|
      ensures pushed == Cut(i).0 && dv == Cut(i).1
    {
      pushed := [];
      dv := this;
      if dv.lbounds[i].BelowZero() && !dv.ubounds[i].BelowZero() {
        var t := dv.ubounds[i];
        dv := dv.(ubounds := dv.ubounds[i := MINUS_ONE]);
        assert dv == WithInterval(i, lbounds[i], MINUS_ONE);
        pushed := pushed + [dv];
        dv := dv.(lbounds := dv.lbounds[i := ZERO]);
        dv := dv.(ubounds := dv.ubounds[i := t]);
        assert dv == WithInterval(i, ZERO, t);
      }
      assert pushed == CutNegative(i).0 && dv == CutNegative(i).1;
      ghost var negative := pushed;
      ghost var rest := dv;
      if dv.lbounds[i] == ZERO && dv.ubounds[i].AboveZero() {
        dv := dv.(lbounds := dv.lbounds[i := ONE]);
        assert dv == rest.WithInterval(i, ONE, rest.ubounds[i]);
        pushed := pushed + [dv];
        dv := dv.(lbounds := dv.lbounds[i := ZERO]);
        dv := dv.(ubounds := dv.ubounds[i := ZERO]);
        assert dv == rest.WithInterval(i, ZERO, ZERO);
        assert pushed == negative + rest.CutPositive(i).0;
      }
    }

    method Normalize() returns (result: seq<DependenceVector>)
      requires Valid()
      ensures result == PiecesFrom(0)
      ensures IsSplit(result)
      ensures |result| <= 2 * |lbounds| + 1
    {
      PiecesFromSplit(0);
      PiecesFromLength(0);
      result := [];
      var dv := this;
      var i := 0;
      while i < |dv.lbounds|
        invariant i <= |dv.lbounds| == |lbounds| == |dv.ubounds|
        invariant result + dv.PiecesFrom(i) == PiecesFrom(0)
        decreases |lbounds| - i
      {
        ghost var before, rest := result, dv.RestFrom(i);
        var pushed;
        pushed, dv := dv.CutDimension(i);
        Regroup(before, pushed, rest);
        result := result + pushed;
        if dv.lbounds[i] == ZERO && dv.ubounds[i] == ZERO {
          i := i + 1;
        } else {
          break;
        }
      }
      result := result + [dv];
    }

    /** What permute returns: the sign question is about the members, not about the scan. */
    ghost function PermuteResult(pi: seq<int>): Result<seq<DependenceVector>>
      requires Valid()
      requires |pi| == |lbounds| ==> InRange(pi, |lbounds|)
    {
      if |pi| != |lbounds| then
        Throw(InvalidArgument)
      else if Permuted(pi).HasLexNegative() && !quasi && !scalar then
        Throw(IrError)
      else
        Ok(Permuted(pi).PiecesFrom(0))
    }

    method Permute(pi: seq<int>) returns (r: Result<seq<DependenceVector>>)
      requires Valid()
      requires |pi| == |lbounds| ==> InRange(pi, |lbounds|)
      ensures r == PermuteResult(pi)
    {
      if |pi| != |lbounds| {
        return Throw(InvalidArgument);
      }
      var n := |lbounds|;
      var dv := this;
      for i := 0 to n
        invariant |dv.lbounds| == |dv.ubounds| == n && SameLabel(dv)
        invariant forall j :: 0 <= j < i ==> dv.lbounds[j] == lbounds[pi[j]] && dv.ubounds[j] == ubounds[pi[j]]
      {
        dv := dv.(lbounds := dv.lbounds[i := lbounds[pi[i]]]);
        dv := dv.(ubounds := dv.ubounds[i := ubounds[pi[i]]]);
      }
      assert dv.lbounds == Permuted(pi).lbounds && dv.ubounds == Permuted(pi).ubounds;
      var violated := dv.Violated();
      if violated && !quasi && !scalar {
        return Throw(IrError);
      }
      var pieces := dv.Normalize();
      return Ok(pieces);
    }

    /** permute's scan for a violation: it does not stop at a possibly negative component. */
    method Violated() returns (violated: bool)
      requires Valid()
      ensures violated <==> HasLexNegative()
    {
      violated := false;
      for i := 0 to |lbounds|
        invariant !violated ==> forall j :: 0 <= j < i ==> lbounds[j] == ZERO
        invariant violated ==> HasLexNegative()
      {
        if lbounds[i].AboveZero() {
          if !violated {
            LowerScanDecides(i);
          }
          break;
        } else if lbounds[i].BelowZero() {
          if !violated {
            ghost var v := ZeroPrefixThen(i, if ubounds[i].BelowZero() then ubounds[i].v else -1);
            assert NegativeAt(v, i);
          }
          violated := true;
        }
      }
    }

    /**
     permute is exact: it throws exactly when some permuted distance would be
     negative, and otherwise its pieces hold exactly the permuted distances.
     */
    lemma PermuteIsExact(pi: seq<int>)
      requires Valid() && IsPermutation(pi, |lbounds|)
      ensures var r := PermuteResult(pi);
              && (r.Throw? <==> !quasi && !scalar && exists v :: Contains(v) && LexNegative(Rearranged(v, pi)))
              && (r.Ok? ==> Permuted(pi).IsSplit(r.value))
              && (r.Ok? ==> forall w :: AnyContains(r.value, w) <==> exists v :: Contains(v) && w == Rearranged(v, pi))
    {
      var p := Permuted(pi);
      p.PiecesFromSplit(0);
      forall w
        ensures p.Contains(w) <==> exists v :: Contains(v) && w == Rearranged(v, pi)
      {
        PermutedMeaning(pi, w);
      }
      if p.HasLexNegative() {
        var w :| p.Contains(w) && LexNegative(w);
        var v :| Contains(v) && w == Rearranged(v, pi);
      }
      if v :| Contains(v) && LexNegative(Rearranged(v, pi)) {
        assert p.Contains(Rearranged(v, pi));
      }
    }

    /** An accepted permutation of an ordinary dependence leaves no negative piece. */
    lemma AcceptedPiecesNonNegative(pi: seq<int>, k: nat)
      requires Valid() && InRange(pi, |lbounds|) && !quasi && !scalar
      requires PermuteResult(pi).Ok? && k < |PermuteResult(pi).value|
      ensures var piece := PermuteResult(pi).value[k];
              piece.Valid() && ((forall w :: piece.Contains(w) ==> LexPositive(w))
                || (forall w :: piece.Contains(w) ==> IsZero(w)))
    {
      var p := Permuted(pi);
      p.PiecesFromSplit(0);
      var piece := PermuteResult(pi).value[k];
      var v := piece.NearestMember();
      assert AnyContains(PermuteResult(pi).value, v);
      assert p.Contains(v) && !LexNegative(v);
    }

    /** Undoing an accepted permutation on one piece: no exception, and only original distances. */
    lemma UndoPiece(pi: seq<int>, piece: DependenceVector)
      requires Valid() && IsPermutation(pi, |lbounds|)
      requires !HasLexNegative()
      requires PermuteResult(pi).Ok? && piece in PermuteResult(pi).value
      ensures IsPermutation(Inverse(pi, |lbounds|), |lbounds|)
      ensures piece.Valid() && |piece.lbounds| == |lbounds|
      ensures var r := piece.PermuteResult(Inverse(pi, |lbounds|));
              r.Ok? && AllValid(r.value) && forall v :: AnyContains(r.value, v) <==>
                Contains(v) && piece.Contains(Rearranged(v, pi))
    {
      var n := |lbounds|;
      var inv, ds := Inverse(pi, n), PermuteResult(pi).value;
      PermuteIsExact(pi);
      InverseIsPermutation(pi, n);
      PieceLength(piece, pi);
      piece.PermuteIsExact(inv);
      forall w | piece.Contains(w)
        ensures Contains(Rearranged(w, inv)) && Rearranged(Rearranged(w, inv), pi) == w
      {
        assert AnyContains(ds, w);
        var v :| Contains(v) && w == Rearranged(v, pi);
        UndoRearranged(v, pi);
      }
      forall v | Contains(v)
        ensures Rearranged(Rearranged(v, pi), inv) == v
      {
        UndoRearranged(v, pi);
      }
    }

    /** Undoing an accepted permutation piece by piece never throws and gives back the same distances. */
    lemma PermuteRoundTrip(pi: seq<int>)
      requires Valid() && IsPermutation(pi, |lbounds|)
      requires !HasLexNegative()
      requires PermuteResult(pi).Ok?
      ensures IsPermutation(Inverse(pi, |lbounds|), |lbounds|)
      ensures var ds, inv := PermuteResult(pi).value, Inverse(pi, |lbounds|);
              && (forall d :: d in ds ==> d.Valid() && |d.lbounds| == |lbounds|)
              && (forall d :: d in ds ==> d.PermuteResult(inv).Ok? && AllValid(d.PermuteResult(inv).value))
              && (forall v :: Contains(v) <==> exists d :: d in ds && AnyContains(d.PermuteResult(inv).value, v))
    {
      var inv, ds := Inverse(pi, |lbounds|), PermuteResult(pi).value;
      InverseIsPermutation(pi, |lbounds|);
      forall d | d in ds
        ensures d.Valid() && |d.lbounds| == |lbounds|
        ensures d.PermuteResult(inv).Ok? && AllValid(d.PermuteResult(inv).value)
        ensures forall v :: AnyContains(d.PermuteResult(inv).value, v) <==> Contains(v) && d.Contains(Rearranged(v, pi))
      {
        UndoPiece(pi, d);
      }
      forall v | Contains(v)
        ensures exists d :: d in ds && AnyContains(d.PermuteResult(inv).value, v)
      {
        PermuteIsExact(pi);
        assert AnyContains(ds, Rearranged(v, pi));
        var k :| 0 <= k < |ds| && ds[k].Contains(Rearranged(v, pi));
        assert ds[k] in ds;
      }
    }

    /** Pieces of a box have as many dimensions as the box. */
    lemma PieceLength(piece: DependenceVector, pi: seq<int>)
      requires Valid() && InRange(pi, |lbounds|)
      requires PermuteResult(pi).Ok? && piece in PermuteResult(pi).value
      ensures |piece.lbounds| == |lbounds|
    {
      Permuted(pi).PiecesFromSplit(0);
      assert piece.Contains(piece.NearestMember());
      assert AnyContains(PermuteResult(pi).value, piece.NearestMember());
    }

    /** Both ends exchanged and negated. */
    function Reversed(): DependenceVector
      requires |lbounds| == |ubounds|
    {
      DependenceVector(
        if kind == W2R then R2W else if kind == R2W then W2R else kind,
        seq(|ubounds|, j requires 0 <= j < |ubounds| => ubounds[j].Negated()),
        seq(|lbounds|, j requires 0 <= j < |lbounds| => lbounds[j].Negated()),
        true, scalar)
    }

    method Reverse() returns (dv: DependenceVector)
      requires Valid()
      ensures dv == Reversed()
      ensures dv.Valid() && dv.quasi && dv.scalar == scalar
      ensures dv.kind == (if kind == W2R then R2W else if kind == R2W then W2R else kind)
      ensures forall v :: dv.Contains(v) <==> Contains(NegatedVector(v))
    {
      dv := this;
      match kind {
        case W2R => dv := dv.(kind := R2W);
        case R2W => dv := dv.(kind := W2R);
        case _ =>
      }
      for i := 0 to |lbounds|
        invariant |dv.lbounds| == |dv.ubounds| == |lbounds|
        invariant dv.scalar == scalar
        invariant dv.kind == (if kind == W2R then R2W else if kind == R2W then W2R else kind)
        invariant forall j :: 0 <= j < i ==>
                  dv.lbounds[j] == ubounds[j].Negated() && dv.ubounds[j] == lbounds[j].Negated()
      {
        dv := dv.(lbounds := dv.lbounds[i := ubounds[i].Negated()]);
        dv := dv.(ubounds := dv.ubounds[i := lbounds[i].Negated()]);
      }
      dv := dv.(quasi := true);
      NegatedBox(this, dv);
    }
  }

  lemma Regroup(a: seq<DependenceVector>, b: seq<DependenceVector>, c: seq<DependenceVector>)
    ensures (a + b) + c == a + (b + c)
  {
  }

  function NegatedVector(v: seq<int>): (w: seq<int>)
    ensures |w| == |v| && forall i :: 0 <= i < |v| ==> w[i] == -v[i]
  {
    seq(|v|, i requires 0 <= i < |v| => -v[i])
  }

  lemma NegatedBox(a: DependenceVector, b: DependenceVector)
    requires a.Valid() && |b.lbounds| == |b.ubounds| == |a.lbounds|
    requires forall j :: 0 <= j < |a.lbounds| ==>
                           b.lbounds[j] == a.ubounds[j].Negated() && b.ubounds[j] == a.lbounds[j].Negated()
    ensures b.Valid()
    ensures forall v :: b.Contains(v) <==> a.Contains(NegatedVector(v))
  {
    forall v
      ensures b.Contains(v) <==> a.Contains(NegatedVector(v))
    {
      var w := NegatedVector(v);
      if |v| == |a.lbounds| {
        assert forall j :: 0 <= j < |v| ==>
               (Within(b.lbounds[j], b.ubounds[j], v[j]) <==> Within(a.lbounds[j], a.ubounds[j], w[j]));
      }
    }
  }

  lemma UndoRearranged(v: seq<int>, pi: seq<int>)
    requires IsPermutation(pi, |v|)
    ensures IsPermutation(Inverse(pi, |v|), |v|)
    ensures Rearranged(Rearranged(v, pi), Inverse(pi, |v|)) == v
  {
    InverseIsPermutation(pi, |v|);
  }

  ghost predicate AllValid(ds: seq<DependenceVector>) {
    forall k :: 0 <= k < |ds| ==> ds[k].Valid()
  }

  /** The set a list of vectors stands for is the union of their boxes. */
  ghost predicate AnyContains(ds: seq<DependenceVector>, v: seq<int>)
    requires AllValid(ds)
  {
    exists k :: 0 <= k < |ds| && ds[k].Contains(v)
  }

  ghost predicate PairwiseDisjoint(ds: seq<DependenceVector>)
    requires AllValid(ds)
  {
    forall j, k, v :: 0 <= j < k < |ds| ==> !(ds[j].Contains(v) && ds[k].Contains(v))
  }

  lemma AnyContainsAppend(ds: seq<DependenceVector>, es: seq<DependenceVector>, v: seq<int>)
    requires AllValid(ds) && AllValid(es)
    ensures AllValid(ds + es)
    ensures AnyContains(ds + es, v) <==> AnyContains(ds, v) || AnyContains(es, v)
  {
    if AnyContains(ds, v) {
      var k :| 0 <= k < |ds| && ds[k].Contains(v);
      assert (ds + es)[k].Contains(v);
    }
    if AnyContains(es, v) {
      var k :| 0 <= k < |es| && es[k].Contains(v);
      assert (ds + es)[|ds| + k].Contains(v);
    }
  }

  lemma NonZeroMember(lb: Bound, ub: Bound) returns (x: int)
    requires Interval(lb, ub) && !(lb == ZERO && ub == ZERO)
    ensures Within(lb, ub, x) && x != 0
  {
    x := Nearest(lb, ub);
    if x == 0 {
      x := if Within(lb, ub, 1) then 1 else -1;
    }
  }
}
