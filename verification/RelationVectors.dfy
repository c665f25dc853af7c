/**
 relation2dependences (chill/omegatools.cc:1837-2146): the dependence relation of
 two references is split by the sign of the first loop whose distance is not zero,
 and every part becomes one dependence vector. Omega's relations are a parameter:
 their meaning is a set of distance vectors, and what is asked of the library is
 that it decides emptiness and bounds distances soundly.
 */
module RelationVectors {
  import opened Bounds
  import opened Lexicographic
  import opened DependenceVectors

  // What the code asks of an Omega relation: is_satisfiable, query_variable_bounds of its Deltas at a level, and the
  // relation with one more constraint: equal, smaller or greater output than input at a level.
  datatype Omega<!R> = Omega(
    satisfiable: R -> bool,
    bounds: (R, nat) -> (Bound, Bound),
    same: (R, nat) -> R,
    smaller: (R, nat) -> R,
    greater: (R, nat) -> R)

  // The distances, output minus input, of the pairs in a relation.
  type Meaning<!R> = R -> iset<seq<int>>

  ghost predicate Exact<R(!new)>(o: Omega<R>, m: Meaning<R>, n: nat) {
    forall r :: ExactFor(o, m, n, r)
  }

  ghost predicate ExactFor<R>(o: Omega<R>, m: Meaning<R>, n: nat, r: R) {
    && (forall v :: v in m(r) ==> |v| == n)
    && (o.satisfiable(r) <==> exists v :: v in m(r))
    && forall l: nat :: l < n ==> ExactAt(o, m, n, r, l)
  }

  ghost predicate ExactAt<R>(o: Omega<R>, m: Meaning<R>, n: nat, r: R, l: nat)
    requires l < n
  {
    && (forall v :: v in m(r) && |v| == n ==> Within(o.bounds(r, l).0, o.bounds(r, l).1, v[l]))
    && (forall v :: v in m(o.same(r, l)) <==> v in m(r) && |v| == n && v[l] == 0)
    && (forall v :: v in m(o.smaller(r, l)) <==> v in m(r) && |v| == n && v[l] < 0)
    && (forall v :: v in m(o.greater(r, l)) <==> v in m(r) && |v| == n && v[l] > 0)
  }

  /** Sets of vectors as relations, with bounds that say nothing. */
  ghost function SetOmega(n: nat): Omega<iset<seq<int>>> {
    Omega((r: iset<seq<int>>) => exists v :: v in r && |v| == n,
          (r: iset<seq<int>>, l: nat) => (NegInf, PosInf),
          (r: iset<seq<int>>, l: nat) => iset v | v in r && l < |v| && v[l] == 0,
          (r: iset<seq<int>>, l: nat) => iset v | v in r && l < |v| && v[l] < 0,
          (r: iset<seq<int>>, l: nat) => iset v | v in r && l < |v| && v[l] > 0)
  }

  ghost function SetMeaning(n: nat): Meaning<iset<seq<int>>> {
    (r: iset<seq<int>>) => iset v | v in r && |v| == n
  }

  /** What is asked of Omega can be met. */
  lemma ExactIsPossible(n: nat)
    ensures Exact(SetOmega(n), SetMeaning(n), n)
  {
    forall r: iset<seq<int>>
      ensures ExactFor(SetOmega(n), SetMeaning(n), n, r)
    {
      if v: seq<int> :| v in r && |v| == n {
        assert v in SetMeaning(n)(r);
      }
    }
  }

  // ---------- The form of the vectors ----------

  /** Zero before dimension k and at least one there. */
  ghost predicate LeadsAt(lbounds: seq<Bound>, ubounds: seq<Bound>, k: nat) {
    && k < |lbounds| == |ubounds| && lbounds[k].AboveZero()
    && forall j :: 0 <= j < k ==> lbounds[j] == ubounds[j] == ZERO
  }

  /** Zeros, then an interval above zero. */
  ghost predicate Leads(d: DependenceVector) {
    exists k :: LeadsAt(d.lbounds, d.ubounds, k)
  }

  ghost predicate AllZero(d: DependenceVector) {
    |d.lbounds| == |d.ubounds| && forall j :: 0 <= j < |d.lbounds| ==> d.lbounds[j] == d.ubounds[j] == ZERO
  }

  /** An ordinary data vector over n dimensions. */
  ghost predicate Plain(d: DependenceVector, n: nat) {
    d.Valid() && d.IsData() && !d.quasi && !d.scalar && |d.lbounds| == n
  }

  /** A dependence that starts with a write exactly if the source writes, and ends with one if the destination does. */
  ghost predicate OfKind(d: DependenceVector, srcWrites: bool, dstWrites: bool) {
    && (d.kind.W2R? || d.kind.W2W? <==> srcWrites)
    && (d.kind.R2W? || d.kind.W2W? <==> dstWrites)
  }

  ghost predicate AllOfKind(ds: seq<DependenceVector>, srcWrites: bool, dstWrites: bool) {
    forall k :: 0 <= k < |ds| ==> OfKind(ds[k], srcWrites, dstWrites)
  }

  /** A vector of the first list: it leads, or is zero; one of the second list always leads. */
  ghost predicate Produced(d: DependenceVector, n: nat, second: bool) {
    Plain(d, n) && (Leads(d) || (!second && AllZero(d)))
  }

  ghost predicate AllProduced(ds: seq<DependenceVector>, n: nat, second: bool) {
    forall k :: 0 <= k < |ds| ==> Produced(ds[k], n, second)
  }

  lemma LeadsIsPositive(d: DependenceVector, v: seq<int>)
    requires d.Valid() && Leads(d) && d.Contains(v)
    ensures LexPositive(v)
  {
    var k :| LeadsAt(d.lbounds, d.ubounds, k);
    assert forall j :: 0 <= j <= k ==> Within(d.lbounds[j], d.ubounds[j], v[j]);
    assert PositiveAt(v, k);
  }

  lemma ZeroHoldsZero(d: DependenceVector, v: seq<int>)
    requires d.Valid() && d.Contains(v)
    ensures AllZero(d) ==> IsZero(v)
  {
    assert forall j :: 0 <= j < |v| ==> Within(d.lbounds[j], d.ubounds[j], v[j]);
  }

  // ---------- The worklist ----------

  datatype Direction = Undetermined | Positive | Negative

  // A part of the relation: bounds are known, and turned around when the direction is backward, below level.
  datatype Part<!R> = Part(r: R, level: nat, dir: Direction, lbounds: seq<Bound>, ubounds: seq<Bound>) {
    /** One level more, with an interval for it. */
    function Next(s: R, d: Direction, lb: Bound, ub: Bound): Part<R>
      requires level < |lbounds| == |ubounds|
    {
      Part(s, level + 1, d, lbounds[level := lb], ubounds[level := ub])
    }

    /** The distances in the relation's own direction are in the box, turned around if it is backward. */
    ghost predicate Bounds(v: seq<int>)
      requires level <= |lbounds| == |ubounds|
    {
      && |v| == |lbounds|
      && forall l :: 0 <= l < level ==> Within(lbounds[l], ubounds[l], if dir.Negative? then -v[l] else v[l])
    }

    /** No direction yet: all zero so far. Otherwise the first interval that is not zero is above zero. */
    ghost predicate Shaped()
      requires level <= |lbounds| == |ubounds|
    {
      if dir.Undetermined? then forall l :: 0 <= l < level ==> lbounds[l] == ubounds[l] == ZERO
      else exists k: nat :: k < level && LeadsAt(lbounds, ubounds, k)
    }

    ghost predicate Sound(m: Meaning<R>, root: R, n: nat) {
      && level <= n && |lbounds| == |ubounds| == n && Shaped()
      && forall v :: v in m(r) ==> v in m(root) && Bounds(v)
    }
  }

  /** Between one reference and itself, only one of a distance and its opposite is kept. */
  ghost predicate Kept(v: seq<int>, trivial: bool) {
    trivial ==> LexPositive(v)
  }

  /** std::max(b, 1). */
  function AtLeastOne(b: Bound): (c: Bound)
    ensures c.AboveZero() && forall k :: k >= 1 && b.AtMost(k) ==> c.AtMost(k)
  {
    if b.AboveZero() then b else ONE
  }

  /** The first level of a part gets its interval; zeros before it stay. */
  lemma NextIsSound<R>(dep: Part<R>, m: Meaning<R>, root: R, n: nat, s: R, d: Direction, lb: Bound, ub: Bound)
    requires dep.Sound(m, root, n) && dep.level < n
    requires forall v :: v in m(s) ==>
             v in m(dep.r) && |v| == n && Within(lb, ub, if d.Negative? then -v[dep.level] else v[dep.level])
    requires if dep.dir.Undetermined? then (if d.Undetermined? then lb == ub == ZERO else lb.AboveZero())
             else d == dep.dir
    ensures dep.Next(s, d, lb, ub).Sound(m, root, n)
  {
    var e := dep.Next(s, d, lb, ub);
    if !d.Undetermined? {
      if dep.dir.Undetermined? {
        assert LeadsAt(e.lbounds, e.ubounds, dep.level);
      } else {
        var k: nat :| k < dep.level && LeadsAt(dep.lbounds, dep.ubounds, k);
        assert LeadsAt(e.lbounds, e.ubounds, k);
      }
    }
    forall v | v in m(s)
      ensures v in m(root) && e.Bounds(v)
    {
      assert dep.Bounds(v);
    }
  }

  /** A distance of an undetermined part is zero so far. */
  lemma ZeroSoFar<R>(dep: Part<R>, m: Meaning<R>, root: R, n: nat, v: seq<int>)
    requires dep.Sound(m, root, n) && dep.dir.Undetermined? && v in m(dep.r)
    ensures |v| == n && ZeroUpTo(v, dep.level)
  {
    assert dep.Bounds(v);
  }

  // ---------- Where a part comes from ----------

  /** Nothing before level k, and from there on the direction. */
  ghost predicate Leading(v: seq<int>, n: nat, k: nat, dir: Direction) {
    && |v| == n && k <= n && ZeroUpTo(v, k)
    && (dir.Positive? ==> k < n && v[k] > 0) && (dir.Negative? ==> k < n && v[k] < 0)
  }

  /** r has exactly the distances of the root that lead at k in this direction. */
  ghost predicate Selects<R>(m: Meaning<R>, r: R, root: R, n: nat, k: nat, dir: Direction) {
    forall v :: v in m(r) <==> v in m(root) && Leading(v, n, k, dir)
  }

  function Sign(x: int): int {
    if x < 0 then -1 else if x > 0 then 1 else 0
  }

  /** A distance with this sign at level l occurs. */
  ghost predicate Occurs<R>(m: Meaning<R>, r: R, l: nat, sign: int) {
    exists v :: v in m(r) && l < |v| && Sign(v[l]) == sign
  }

  /**
   The interval from a to b is inside the one Omega gives; when Omega gives none, it is
   open only where distances of that sign occur, and it ends at zero only if zero occurs.
   */
  ghost predicate Inside<R>(o: Omega<R>, m: Meaning<R>, r: R, l: nat, a: Bound, b: Bound) {
    && (forall x :: Within(a, b, x) ==> Within(o.bounds(r, l).0, o.bounds(r, l).1, x))
    && (o.bounds(r, l) == (NegInf, PosInf) && a == NegInf ==> Occurs(m, r, l, -1))
    && (o.bounds(r, l) == (NegInf, PosInf) && b == PosInf ==> Occurs(m, r, l, 1))
    && (a == ZERO || b == ZERO ==> Occurs(m, r, l, 0))
  }

  ghost predicate Nonempty<R>(m: Meaning<R>, r: R) {
    exists v :: v in m(r)
  }

  /** The ends of level l, turned back if they are those of a backward vector, are inside Omega's. */
  ghost predicate EndsInside<R>(o: Omega<R>, m: Meaning<R>, r: R, l: nat, lb: Bound, ub: Bound, backward: bool) {
    Nonempty(m, r) ==> if backward then Inside(o, m, r, l, ub.Negated(), lb.Negated()) else Inside(o, m, r, l, lb, ub)
  }

  /** A part with a direction has all distances that lead at k, and no interval from k on is wider than needed. */
  ghost predicate LedAt<R>(o: Omega<R>, p: Part<R>, m: Meaning<R>, root: R, n: nat, k: nat) {
    && k < p.level && LeadsAt(p.lbounds, p.ubounds, k) && Selects(m, p.r, root, n, k, p.dir)
    && forall l :: k <= l < p.level && l < |p.lbounds| == |p.ubounds| ==>
         EndsInside(o, m, p.r, l, p.lbounds[l], p.ubounds[l], p.dir.Negative?)
  }

  ghost predicate Traced<R>(o: Omega<R>, p: Part<R>, m: Meaning<R>, root: R, n: nat) {
    if p.dir.Undetermined? then Selects(m, p.r, root, n, p.level, Undetermined)
    else exists k: nat :: LedAt(o, p, m, root, n, k)
  }

  /** No distance is in two of the relations. */
  ghost predicate AllSeparate<R>(rels: seq<R>, m: Meaning<R>) {
    forall i, j :: 0 <= i < j < |rels| ==> Separate(m, rels[i], rels[j])
  }

  ghost predicate Separate<R>(m: Meaning<R>, r: R, s: R) {
    forall v :: !(v in m(r) && v in m(s))
  }

  function RelationsOf<R>(parts: seq<Part<R>>): (rels: seq<R>)
    ensures |rels| == |parts|
  {
    seq(|parts|, k requires 0 <= k < |parts| => parts[k].r)
  }

  /** Each distance of a part goes to at most one of the next. */
  ghost predicate Divides<R>(o: Omega<R>, next: seq<Part<R>>, dep: Part<R>, m: Meaning<R>, root: R, n: nat) {
    && (forall k :: 0 <= k < |next| ==> Traced(o, next[k], m, root, n))
    && (forall k, v :: 0 <= k < |next| && v in m(next[k].r) ==> v in m(dep.r))
    && AllSeparate(RelationsOf(next), m)
  }

  /** The first level that is not zero. */
  lemma LeadStarts<R(!new)>(o: Omega<R>, dep: Part<R>, m: Meaning<R>, root: R, n: nat, r: R, d: Direction, lb: Bound,
                            ub: Bound)
    requires dep.Sound(m, root, n) && dep.level < n && dep.dir.Undetermined? && Traced(o, dep, m, root, n)
    requires !d.Undetermined? && lb.AboveZero()
    requires forall v :: v in m(r) <==> v in m(dep.r) && |v| == n
                                        && if d.Positive? then v[dep.level] > 0 else v[dep.level] < 0
    requires EndsInside(o, m, r, dep.level, lb, ub, d.Negative?)
    ensures Traced(o, dep.Next(r, d, lb, ub), m, root, n)
  {
    assert LedAt(o, dep.Next(r, d, lb, ub), m, root, n, dep.level);
  }

  lemma LeadGoesOn<R(!new)>(o: Omega<R>, dep: Part<R>, m: Meaning<R>, root: R, n: nat, lb: Bound, ub: Bound)
    requires dep.Sound(m, root, n) && dep.level < n && !dep.dir.Undetermined? && Traced(o, dep, m, root, n)
    requires EndsInside(o, m, dep.r, dep.level, lb, ub, dep.dir.Negative?)
    ensures Traced(o, dep.Next(dep.r, dep.dir, lb, ub), m, root, n)
  {
    var k: nat :| LedAt(o, dep, m, root, n, k);
    assert LedAt(o, dep.Next(dep.r, dep.dir, lb, ub), m, root, n, k);
  }

  lemma ZeroGoesOn<R(!new)>(o: Omega<R>, dep: Part<R>, m: Meaning<R>, root: R, n: nat)
    requires Exact(o, m, n) && dep.level < n && dep.dir.Undetermined? && Traced(o, dep, m, root, n)
    ensures dep.level < |dep.lbounds| == |dep.ubounds| ==>
              Traced(o, dep.Next(o.same(dep.r, dep.level), Undetermined, ZERO, ZERO), m, root, n)
  {
    Facts(o, m, n, dep.r, dep.level);
    forall v
      ensures Leading(v, n, dep.level + 1, Undetermined) <==> Leading(v, n, dep.level, Undetermined)
                                                              && v[dep.level] == 0
    {
    }
  }

  lemma OneDivides<R(!new)>(o: Omega<R>, e: Part<R>, dep: Part<R>, m: Meaning<R>, root: R, n: nat)
    requires Traced(o, e, m, root, n) && e.r == dep.r
    ensures Divides(o, [e], dep, m, root, n)
  {
  }

  // ---------- One level (chill/omegatools.cc:1978-2140) ----------

  /** Parts of one part, one level deeper, that lose no distance that is kept. */
  ghost predicate Refines<R(!new)>(next: seq<Part<R>>, dep: Part<R>, m: Meaning<R>, root: R, n: nat, trivial: bool) {
    && |next| <= 3
    && (forall k :: 0 <= k < |next| ==> next[k].level == dep.level + 1 && next[k].Sound(m, root, n))
    && forall v :: v in m(dep.r) && Kept(v, trivial) ==> InSome(next, m, v)
  }

  ghost predicate InSome<R>(parts: seq<Part<R>>, m: Meaning<R>, v: seq<int>) {
    exists k :: 0 <= k < |parts| && v in m(parts[k].r)
  }

  lemma NegativeIsDropped(v: seq<int>, k: nat)
    requires k < |v| && ZeroUpTo(v, k) && v[k] < 0
    ensures !LexPositive(v)
  {
    assert NegativeAt(v, k);
    Trichotomy(v);
  }

  lemma OneRefines<R(!new)>(e: Part<R>, dep: Part<R>, m: Meaning<R>, root: R, n: nat, trivial: bool)
    requires e.Sound(m, root, n) && e.level == dep.level + 1 && e.r == dep.r
    ensures Refines([e], dep, m, root, n, trivial)
  {
    forall v | v in m(dep.r)
      ensures InSome([e], m, v)
    {
      assert v in m([e][0].r);
    }
  }

  /** What Omega says about a relation at a level. */
  lemma Facts<R(!new)>(o: Omega<R>, m: Meaning<R>, n: nat, r: R, l: nat)
    requires Exact(o, m, n) && l < n
    ensures ExactAt(o, m, n, r, l) && forall v :: v in m(r) ==> |v| == n
  {
    assert ExactFor(o, m, n, r);
  }

  /** Raising the lower end to one loses no positive number and adds nothing. */
  lemma RaisedEnds(low: Bound, high: Bound, y: int)
    requires Within(low, high, y) && y > 0
    ensures forall x :: Within(AtLeastOne(low), high, x) ==> Within(low, high, x)
    ensures AtLeastOne(low) != NegInf && AtLeastOne(low) != ZERO && high != ZERO
  {
  }

  lemma LoweredEnds(low: Bound, high: Bound, b: Bound, y: int)
    requires Within(low, high, y) && y < 0 && b == AtLeastOne(high.Negated()).Negated()
    ensures forall x :: Within(low, b, x) ==> Within(low, high, x)
    ensures b != PosInf && b != ZERO && low != ZERO
  {
  }

  lemma NegatedBack(b: Bound)
    ensures b.Negated().Negated() == b
  {
  }

  lemma PositiveEnds<R(!new)>(o: Omega<R>, m: Meaning<R>, n: nat, r: R, l: nat, low: Bound, high: Bound)
    requires l < n && (low, high) == o.bounds(r, l)
    requires forall v :: v in m(r) ==> |v| == n && v[l] > 0 && Within(low, high, v[l])
    ensures EndsInside(o, m, r, l, AtLeastOne(low), high, false)
  {
    if v :| v in m(r) {
      RaisedEnds(low, high, v[l]);
      assert Occurs(m, r, l, 1);
    }
  }

  lemma NegativeEnds<R(!new)>(o: Omega<R>, m: Meaning<R>, n: nat, r: R, l: nat, low: Bound, high: Bound)
    requires l < n && (low, high) == o.bounds(r, l)
    requires forall v :: v in m(r) ==> |v| == n && v[l] < 0 && Within(low, high, v[l])
    ensures EndsInside(o, m, r, l, AtLeastOne(high.Negated()), low.Negated(), true)
  {
    if v :| v in m(r) {
      NegatedBack(low);
      LoweredEnds(low, high, AtLeastOne(high.Negated()).Negated(), v[l]);
      assert Occurs(m, r, l, -1);
    }
  }

  /** The distances of one sign, with the bounds Omega gives for them. */
  method SignPart<R(!new)>(o: Omega<R>, dep: Part<R>, r: R, d: Direction, ghost m: Meaning<R>, ghost root: R,
                           ghost n: nat)
    returns (e: Part<R>)
    requires Exact(o, m, n) && dep.Sound(m, root, n) && dep.level < n && dep.dir.Undetermined? && !d.Undetermined?
    requires forall v :: v in m(r) <==> v in m(dep.r) && |v| == n
                                        && if d.Positive? then v[dep.level] > 0 else v[dep.level] < 0
    requires Traced(o, dep, m, root, n)
    ensures e.level == dep.level + 1 && e.Sound(m, root, n) && e.r == r && Traced(o, e, m, root, n)
  {
    var (low, high) := o.bounds(r, dep.level);
    Facts(o, m, n, r, dep.level);
    var lb, ub := AtLeastOne(if d.Positive? then low else high.Negated()), if d.Positive? then high else low.Negated();
    NextIsSound(dep, m, root, n, r, d, lb, ub);
    if d.Positive? {
      PositiveEnds(o, m, n, r, dep.level, low, high);
    } else {
      NegativeEnds(o, m, n, r, dep.level, low, high);
    }
    LeadStarts(o, dep, m, root, n, r, d, lb, ub);
    e := dep.Next(r, d, lb, ub);
  }

  /** Part k has exactly the distances of dep with sign signs[k] at its level. */
  ghost predicate BySign<R>(next: seq<Part<R>>, signs: seq<int>, dep: Part<R>, m: Meaning<R>, n: nat) {
    && |next| == |signs| && dep.level < n
    && (forall i, j :: 0 <= i < j < |signs| ==> signs[i] != signs[j])
    && forall k, v :: 0 <= k < |next| ==>
         (v in m(next[k].r) <==> v in m(dep.r) && |v| == n && Sign(v[dep.level]) == signs[k])
  }

  lemma SignsDivide<R(!new)>(o: Omega<R>, next: seq<Part<R>>, signs: seq<int>, dep: Part<R>, m: Meaning<R>, root: R,
                             n: nat)
    requires BySign(next, signs, dep, m, n) && forall k :: 0 <= k < |next| ==> Traced(o, next[k], m, root, n)
    ensures Divides(o, next, dep, m, root, n)
  {
    forall i, j | 0 <= i < j < |next|
      ensures Separate(m, RelationsOf(next)[i], RelationsOf(next)[j])
    {
      assert signs[i] != signs[j];
    }
  }

  lemma SignsRefine<R(!new)>(next: seq<Part<R>>, signs: seq<int>, dep: Part<R>, m: Meaning<R>, root: R, n: nat,
                             trivial: bool)
    requires BySign(next, signs, dep, m, n) && |next| <= 3 && dep.Sound(m, root, n) && dep.dir.Undetermined?
    requires forall k :: 0 <= k < |next| ==> next[k].level == dep.level + 1 && next[k].Sound(m, root, n)
    requires 0 in signs && (-1 in signs || trivial || forall v :: v in m(dep.r) ==> v[dep.level] >= 0)
    requires 1 in signs || forall v :: v in m(dep.r) ==> v[dep.level] <= 0
    ensures Refines(next, dep, m, root, n, trivial)
  {
    forall v | v in m(dep.r) && Kept(v, trivial)
      ensures InSome(next, m, v)
    {
      ZeroSoFar(dep, m, root, n, v);
      if v[dep.level] < 0 && trivial {
        NegativeIsDropped(v, dep.level);
      }
      var k :| 0 <= k < |signs| && signs[k] == Sign(v[dep.level]);
      assert v in m(next[k].r);
    }
  }

  lemma SignsPush<R(!new)>(next: seq<Part<R>>, signs: seq<int>, dep: Part<R>, m: Meaning<R>, n: nat, e: Part<R>,
                           sign: int)
    requires BySign(next, signs, dep, m, n) && sign !in signs
    requires forall v :: v in m(e.r) <==> v in m(dep.r) && |v| == n && Sign(v[dep.level]) == sign
    ensures BySign(next + [e], signs + [sign], dep, m, n)
  {
  }

  /** A part for each sign so far. */
  ghost predicate Splitting<R>(o: Omega<R>, next: seq<Part<R>>, signs: seq<int>, dep: Part<R>, m: Meaning<R>,
                               root: R, n: nat) {
    && BySign(next, signs, dep, m, n)
    && forall k :: 0 <= k < |next| ==>
         next[k].level == dep.level + 1 && next[k].Sound(m, root, n) && Traced(o, next[k], m, root, n)
  }

  lemma SplittingPush<R(!new)>(o: Omega<R>, next: seq<Part<R>>, signs: seq<int>, dep: Part<R>, m: Meaning<R>, root: R,
                               n: nat, e: Part<R>, sign: int)
    requires Splitting(o, next, signs, dep, m, root, n) && sign !in signs
    requires forall v :: v in m(e.r) <==> v in m(dep.r) && |v| == n && Sign(v[dep.level]) == sign
    requires e.level == dep.level + 1 && e.Sound(m, root, n) && Traced(o, e, m, root, n)
    ensures Splitting(o, next + [e], signs + [sign], dep, m, root, n)
  {
    SignsPush(next, signs, dep, m, n, e, sign);
  }

  /** The distances that are zero at this level too. */
  method ZeroPart<R(!new)>(o: Omega<R>, dep: Part<R>, ghost m: Meaning<R>, ghost root: R, ghost n: nat)
    returns (e: Part<R>)
    requires Exact(o, m, n) && dep.Sound(m, root, n) && dep.level < n && dep.dir.Undetermined?
    requires Traced(o, dep, m, root, n)
    ensures e == dep.Next(o.same(dep.r, dep.level), Undetermined, ZERO, ZERO)
    ensures Splitting(o, [e], [0], dep, m, root, n)
  {
    Facts(o, m, n, dep.r, dep.level);
    NextIsSound(dep, m, root, n, o.same(dep.r, dep.level), Undetermined, ZERO, ZERO);
    ZeroGoesOn(o, dep, m, root, n);
    e := dep.Next(o.same(dep.r, dep.level), Undetermined, ZERO, ZERO);
  }

  /** The bounds rule out the signs that have no part. */
  lemma SplitDone<R(!new)>(o: Omega<R>, dep: Part<R>, lb: Bound, ub: Bound, trivial: bool, m: Meaning<R>, root: R,
                           n: nat, next: seq<Part<R>>, signs: seq<int>)
    requires Exact(o, m, n) && dep.Sound(m, root, n) && dep.level < n && dep.dir.Undetermined?
    requires (lb, ub) == o.bounds(dep.r, dep.level) && Splitting(o, next, signs, dep, m, root, n) && |next| <= 3
    requires 0 in signs && (lb.BelowZero() && !trivial ==> -1 in signs) && (ub.AboveZero() ==> 1 in signs)
    ensures Refines(next, dep, m, root, n, trivial) && Divides(o, next, dep, m, root, n)
  {
    Facts(o, m, n, dep.r, dep.level);
    SignsRefine(next, signs, dep, m, root, n, trivial);
    SignsDivide(o, next, signs, dep, m, root, n);
  }

  /**
   A split into zero, negative and positive distances; between a reference and itself the
   negative ones are mirrored.
   */
  method Split<R(!new)>(o: Omega<R>, dep: Part<R>, lb: Bound, ub: Bound, trivial: bool,
                        ghost m: Meaning<R>, ghost root: R, ghost n: nat)
    returns (next: seq<Part<R>>)
    requires Exact(o, m, n) && dep.Sound(m, root, n) && dep.level < n && dep.dir.Undetermined?
    requires (lb, ub) == o.bounds(dep.r, dep.level) && Traced(o, dep, m, root, n)
    ensures Refines(next, dep, m, root, n, trivial) && Divides(o, next, dep, m, root, n)
  {
    Facts(o, m, n, dep.r, dep.level);
    ghost var signs := [0];
    var zero := ZeroPart(o, dep, m, root, n);
    next := [zero];
    if lb.BelowZero() && !trivial {
      var e := SignPart(o, dep, o.smaller(dep.r, dep.level), Negative, m, root, n);
      SplittingPush(o, next, signs, dep, m, root, n, e, -1);
      next, signs := next + [e], signs + [-1];
    }
    if ub.AboveZero() {
      var e := SignPart(o, dep, o.greater(dep.r, dep.level), Positive, m, root, n);
      SplittingPush(o, next, signs, dep, m, root, n, e, 1);
      next, signs := next + [e], signs + [1];
    }
    SplitDone(o, dep, lb, ub, trivial, m, root, n, next, signs);
  }

  lemma SureEnds(low: Bound, high: Bound, y: int)
    requires Within(low, high, y) && (low.AboveZero() || high.BelowZero())
    ensures (low, high) != (NegInf, PosInf) && low != ZERO && high != ZERO
  {
  }

  /** Where Omega's own bounds have one sign, they are not too wide. */
  lemma OwnEnds<R(!new)>(o: Omega<R>, m: Meaning<R>, n: nat, r: R, l: nat, low: Bound, high: Bound)
    requires Exact(o, m, n) && l < n && (low, high) == o.bounds(r, l) && (low.AboveZero() || high.BelowZero())
    ensures EndsInside(o, m, r, l, low, high, false)
    ensures EndsInside(o, m, r, l, high.Negated(), low.Negated(), true)
  {
    Facts(o, m, n, r, l);
    NegatedBack(low);
    NegatedBack(high);
    if v :| v in m(r) {
      SureEnds(low, high, v[l]);
    }
  }

  lemma DecidedUp<R(!new)>(o: Omega<R>, dep: Part<R>, m: Meaning<R>, root: R, n: nat, trivial: bool, low: Bound,
                           high: Bound, e: Part<R>)
    requires Exact(o, m, n) && dep.Sound(m, root, n) && dep.level < n && dep.dir.Undetermined?
    requires Traced(o, dep, m, root, n) && (low, high) == o.bounds(dep.r, dep.level)
    requires low.AboveZero() && e == dep.Next(dep.r, Positive, low, high)
    ensures Refines([e], dep, m, root, n, trivial) && Divides(o, [e], dep, m, root, n)
  {
    Facts(o, m, n, dep.r, dep.level);
    assert e.Sound(m, root, n) by { NextIsSound(dep, m, root, n, dep.r, Positive, low, high); }
    OneRefines(e, dep, m, root, n, trivial);
    OwnEnds(o, m, n, dep.r, dep.level, low, high);
    assert Traced(o, e, m, root, n) by { LeadStarts(o, dep, m, root, n, dep.r, Positive, low, high); }
    OneDivides(o, e, dep, m, root, n);
  }

  lemma DecidedDown<R(!new)>(o: Omega<R>, dep: Part<R>, m: Meaning<R>, root: R, n: nat, trivial: bool, low: Bound,
                             high: Bound, e: Part<R>)
    requires Exact(o, m, n) && dep.Sound(m, root, n) && dep.level < n && dep.dir.Undetermined?
    requires Traced(o, dep, m, root, n) && (low, high) == o.bounds(dep.r, dep.level)
    requires high.BelowZero() && e == dep.Next(dep.r, Negative, high.Negated(), low.Negated())
    ensures Refines([e], dep, m, root, n, trivial) && Divides(o, [e], dep, m, root, n)
  {
    var lb, ub := high.Negated(), low.Negated();
    Facts(o, m, n, dep.r, dep.level);
    assert e.Sound(m, root, n) by { NextIsSound(dep, m, root, n, dep.r, Negative, lb, ub); }
    OneRefines(e, dep, m, root, n, trivial);
    OwnEnds(o, m, n, dep.r, dep.level, low, high);
    assert Traced(o, e, m, root, n) by { LeadStarts(o, dep, m, root, n, dep.r, Negative, lb, ub); }
    OneDivides(o, e, dep, m, root, n);
  }

  /** No direction so far: the sign at this level decides, or the distances are split by it. */
  method RefineUndetermined<R(!new)>(o: Omega<R>, dep: Part<R>, trivial: bool, ghost m: Meaning<R>, ghost root: R,
                                     ghost n: nat)
    returns (next: seq<Part<R>>)
    requires Exact(o, m, n) && dep.Sound(m, root, n) && dep.level < n && dep.dir.Undetermined?
    requires Traced(o, dep, m, root, n)
    ensures Refines(next, dep, m, root, n, trivial) && Divides(o, next, dep, m, root, n)
  {
    var (lb, ub) := o.bounds(dep.r, dep.level);
    if lb.AboveZero() {
      var e := dep.Next(dep.r, Positive, lb, ub);
      DecidedUp(o, dep, m, root, n, trivial, lb, ub, e);
      next := [e];
    } else if ub.BelowZero() {
      var e := dep.Next(dep.r, Negative, ub.Negated(), lb.Negated());
      DecidedDown(o, dep, m, root, n, trivial, lb, ub, e);
      next := [e];
    } else {
      next := Split(o, dep, lb, ub, trivial, m, root, n);
    }
  }

  /**
   Bounds of a level whose sign does not matter any more, tightened by testing for
   distances of either sign and for zero.
   */
  method TightBounds<R(!new)>(o: Omega<R>, r: R, l: nat, ghost m: Meaning<R>, ghost n: nat)
    returns (lb: Bound, ub: Bound)
    requires Exact(o, m, n) && l < n
    ensures TightEnds(o, m, n, r, l, lb, ub, false)
  {
    Facts(o, m, n, r, l);
    var (low, high) := o.bounds(r, l);
    lb, ub := low, high;
    if lb == NegInf && ub == PosInf {
      assert ExactFor(o, m, n, o.smaller(r, l)) && ExactFor(o, m, n, o.greater(r, l));
      if !o.satisfiable(o.smaller(r, l)) {
        assert forall v :: v in m(r) ==> v !in m(o.smaller(r, l));
        lb := ZERO;
      }
      if !o.satisfiable(o.greater(r, l)) {
        assert forall v :: v in m(r) ==> v !in m(o.greater(r, l));
        ub := ZERO;
      }
    }
    if lb == ZERO || ub == ZERO {
      assert ExactFor(o, m, n, o.same(r, l));
      if !o.satisfiable(o.same(r, l)) {
        assert forall v :: v in m(r) ==> v !in m(o.same(r, l));
        if lb == ZERO {
          lb := ONE;
        }
        if ub == ZERO {
          ub := MINUS_ONE;
        }
      }
    }
  }

  /** An interval, turned around or not, that holds every distance and is no wider than needed. */
  ghost predicate TightEnds<R>(o: Omega<R>, m: Meaning<R>, n: nat, r: R, l: nat, lb: Bound, ub: Bound, backward: bool) {
    && l < n && (forall v :: v in m(r) ==> |v| == n && Within(lb, ub, if backward then -v[l] else v[l]))
    && EndsInside(o, m, r, l, lb, ub, backward)
  }

  lemma TurnedEnds<R(!new)>(o: Omega<R>, m: Meaning<R>, n: nat, r: R, l: nat, lb: Bound, ub: Bound)
    requires TightEnds(o, m, n, r, l, lb, ub, false)
    ensures TightEnds(o, m, n, r, l, ub.Negated(), lb.Negated(), true)
  {
    NegatedBack(lb);
    NegatedBack(ub);
  }

  /** One more interval for a part with a direction. */
  lemma IntervalAdded<R(!new)>(o: Omega<R>, dep: Part<R>, m: Meaning<R>, root: R, n: nat, trivial: bool, lb: Bound,
                               ub: Bound)
    requires dep.Sound(m, root, n) && dep.level < n && !dep.dir.Undetermined? && Traced(o, dep, m, root, n)
    requires TightEnds(o, m, n, dep.r, dep.level, lb, ub, dep.dir.Negative?)
    ensures Refines([dep.Next(dep.r, dep.dir, lb, ub)], dep, m, root, n, trivial)
    ensures Divides(o, [dep.Next(dep.r, dep.dir, lb, ub)], dep, m, root, n)
  {
    var e := dep.Next(dep.r, dep.dir, lb, ub);
    assert e.Sound(m, root, n) by { NextIsSound(dep, m, root, n, dep.r, dep.dir, lb, ub); }
    OneRefines(e, dep, m, root, n, trivial);
    assert Traced(o, e, m, root, n) by { LeadGoesOn(o, dep, m, root, n, lb, ub); }
    OneDivides(o, e, dep, m, root, n);
  }

  /** The direction is known: the level gets its interval. */
  method RefineDirected<R(!new)>(o: Omega<R>, dep: Part<R>, trivial: bool, ghost m: Meaning<R>, ghost root: R,
                                 ghost n: nat)
    returns (next: seq<Part<R>>)
    requires Exact(o, m, n) && dep.Sound(m, root, n) && dep.level < n && !dep.dir.Undetermined?
    requires Traced(o, dep, m, root, n)
    ensures Refines(next, dep, m, root, n, trivial) && Divides(o, next, dep, m, root, n)
  {
    var lb, ub := TightBounds(o, dep.r, dep.level, m, n);
    if dep.dir.Negative? {
      TurnedEnds(o, m, n, dep.r, dep.level, lb, ub);
      IntervalAdded(o, dep, m, root, n, trivial, ub.Negated(), lb.Negated());
      next := [dep.Next(dep.r, dep.dir, ub.Negated(), lb.Negated())];
    } else {
      IntervalAdded(o, dep, m, root, n, trivial, lb, ub);
      next := [dep.Next(dep.r, dep.dir, lb, ub)];
    }
  }

  // ---------- The loop over the worklist ----------

  function Kind(srcWrites: bool, dstWrites: bool): (kind: DependenceType)
    ensures !kind.Control? && !kind.Unknown?
    ensures (kind.W2R? || kind.W2W? <==> srcWrites) && (kind.R2W? || kind.W2W? <==> dstWrites)
  {
    if srcWrites then (if dstWrites then W2W else W2R) else if dstWrites then R2W else R2R
  }

  /** Steps a part with k levels to go can still take. */
  function Steps(k: nat): (w: nat)
    ensures w >= 1
  {
    if k == 0 then 1 else 3 * Steps(k - 1) + 1
  }

  ghost function Work<R>(parts: seq<Part<R>>, n: nat): nat {
    if parts == [] then 0
    else
      var p := parts[|parts| - 1];
      Work(parts[..|parts| - 1], n) + Steps(if p.level <= n then n - p.level else 0)
  }

  lemma OneTimeMore(k: int, w: int)
    ensures (k + 1) * w == k * w + w
  {
  }

  lemma {:induction false} WorkPush<R>(parts: seq<Part<R>>, next: seq<Part<R>>, n: nat, level: nat)
    requires level <= n && forall k :: 0 <= k < |next| ==> next[k].level == level
    ensures Work(parts + next, n) == Work(parts, n) + |next| * Steps(n - level)
  {
    if next == [] {
      assert parts + next == parts;
    } else {
      var front, w := next[..|next| - 1], Steps(n - level);
      assert (parts + next)[..|parts + next| - 1] == parts + front;
      assert Work(parts + next, n) == Work(parts + front, n) + w;
      WorkPush(parts, front, n, level);
      OneTimeMore(|front|, w);
    }
  }

  /**
   A kept distance is still to be worked on, or it is in a vector of the first list, or
   its opposite in one of the second.
   */
  ghost predicate Accounted<R>(parts: seq<Part<R>>, first: seq<DependenceVector>, second: seq<DependenceVector>,
                               m: Meaning<R>, v: seq<int>) {
    InSome(parts, m, v) || ListHolds(first, v) || ListHolds(second, NegatedVector(v))
  }

  ghost predicate ListHolds(ds: seq<DependenceVector>, v: seq<int>) {
    exists k :: 0 <= k < |ds| && ds[k].Valid() && ds[k].Contains(v)
  }

  /** Every vector holds a distance of the relation: none is there for nothing. */
  ghost predicate Inhabited(ds: seq<DependenceVector>, reals: iset<seq<int>>, second: bool) {
    forall k :: 0 <= k < |ds| ==> ds[k].Valid() && HoldsOne(ds[k], reals, second)
  }

  ghost predicate HoldsOne(d: DependenceVector, reals: iset<seq<int>>, second: bool)
    requires d.Valid()
  {
    exists v :: v in reals && d.Contains(if second then NegatedVector(v) else v)
  }

  /** The vector of a finished part. */
  lemma FinishedVector<R(!new)>(dep: Part<R>, kind: DependenceType, o: Omega<R>, m: Meaning<R>, root: R, n: nat)
    requires Exact(o, m, n) && dep.Sound(m, root, n) && dep.level == n && o.satisfiable(dep.r)
    requires kind.W2W? || kind.W2R? || kind.R2W? || kind.R2R?
    ensures var d := DependenceVector(kind, dep.lbounds, dep.ubounds, false, false);
            && Produced(d, n, dep.dir.Negative?)
            && HoldsOne(d, m(root), dep.dir.Negative?)
            && forall v :: v in m(dep.r) ==> d.Contains(if dep.dir.Negative? then NegatedVector(v) else v)
  {
    var d := DependenceVector(kind, dep.lbounds, dep.ubounds, false, false);
    assert ExactFor(o, m, n, dep.r);
    var v :| v in m(dep.r);
    assert dep.Bounds(v);
    forall l | 0 <= l < n
      ensures Interval(d.lbounds[l], d.ubounds[l])
    {
      assert Within(d.lbounds[l], d.ubounds[l], if dep.dir.Negative? then -v[l] else v[l]);
    }
    forall w | w in m(dep.r)
      ensures d.Contains(if dep.dir.Negative? then NegatedVector(w) else w)
    {
      assert dep.Bounds(w);
    }
  }

  /** Taking the last part off the list and putting others in its place. */
  lemma Replaced<R>(rest: seq<Part<R>>, dep: Part<R>, next: seq<Part<R>>, m: Meaning<R>, v: seq<int>)
    requires InSome(rest + [dep], m, v) && (v in m(dep.r) ==> InSome(next, m, v))
    ensures InSome(rest + next, m, v)
  {
    var k :| 0 <= k < |rest| + 1 && v in m((rest + [dep])[k].r);
    if k < |rest| {
      assert v in m((rest + next)[k].r);
    } else {
      var j :| 0 <= j < |next| && v in m(next[j].r);
      assert v in m((rest + next)[|rest| + j].r);
    }
  }

  lemma Removed<R>(rest: seq<Part<R>>, dep: Part<R>, m: Meaning<R>, v: seq<int>)
    requires InSome(rest + [dep], m, v) && v !in m(dep.r)
    ensures InSome(rest, m, v)
  {
    Replaced(rest, dep, [], m, v);
    assert rest + [] == rest;
  }

  lemma HoldsMore(ds: seq<DependenceVector>, d: DependenceVector, v: seq<int>)
    ensures ListHolds(ds, v) ==> ListHolds(ds + [d], v)
    ensures d.Valid() && d.Contains(v) ==> ListHolds(ds + [d], v)
  {
    if k :| 0 <= k < |ds| && ds[k].Valid() && ds[k].Contains(v) {
      assert (ds + [d])[k] == ds[k];
    }
    assert (ds + [d])[|ds|] == d;
  }

  /** The two lists so far, and what they say about the relation. */
  ghost predicate Progress<R(!new)>(parts: seq<Part<R>>, first: seq<DependenceVector>, second: seq<DependenceVector>,
                                    m: Meaning<R>, root: R, n: nat, trivial: bool) {
    && (forall k :: 0 <= k < |parts| ==> parts[k].Sound(m, root, n))
    && AllProduced(first, n, false) && AllProduced(second, n, true)
    && Inhabited(first, m(root), false) && Inhabited(second, m(root), true)
    && forall v :: v in m(root) && Kept(v, trivial) ==> Accounted(parts, first, second, m, v)
  }

  lemma EmptyPart<R(!new)>(rest: seq<Part<R>>, dep: Part<R>, first: seq<DependenceVector>,
                           second: seq<DependenceVector>, m: Meaning<R>, root: R, n: nat, trivial: bool)
    requires Progress(rest + [dep], first, second, m, root, n, trivial)
    requires forall v :: v in m(dep.r) ==> !Kept(v, trivial)
    ensures Progress(rest, first, second, m, root, n, trivial)
  {
    forall k | 0 <= k < |rest|
      ensures rest[k].Sound(m, root, n)
    {
      assert (rest + [dep])[k] == rest[k];
    }
    forall v | v in m(root) && Kept(v, trivial)
      ensures Accounted(rest, first, second, m, v)
    {
      if InSome(rest + [dep], m, v) {
        Removed(rest, dep, m, v);
      }
    }
  }

  lemma RefinedPart<R(!new)>(rest: seq<Part<R>>, dep: Part<R>, next: seq<Part<R>>, first: seq<DependenceVector>,
                             second: seq<DependenceVector>, m: Meaning<R>, root: R, n: nat, trivial: bool)
    requires Progress(rest + [dep], first, second, m, root, n, trivial) && Refines(next, dep, m, root, n, trivial)
    ensures Progress(rest + next, first, second, m, root, n, trivial)
  {
    forall k | 0 <= k < |rest|
      ensures rest[k].Sound(m, root, n)
    {
      assert (rest + [dep])[k] == rest[k];
    }
    forall v | v in m(root) && Kept(v, trivial)
      ensures Accounted(rest + next, first, second, m, v)
    {
      if InSome(rest + [dep], m, v) {
        Replaced(rest, dep, next, m, v);
      }
    }
  }

  lemma OneMore(ds: seq<DependenceVector>, d: DependenceVector, n: nat, reals: iset<seq<int>>, second: bool)
    requires AllProduced(ds, n, second) && Inhabited(ds, reals, second)
    requires Produced(d, n, second) && HoldsOne(d, reals, second)
    ensures AllProduced(ds + [d], n, second) && Inhabited(ds + [d], reals, second)
  {
  }

  /** A finished part leaves the list; its distances are in the vector that enters one of the lists. */
  lemma FinishedPart<R(!new)>(rest: seq<Part<R>>, dep: Part<R>, first: seq<DependenceVector>,
                              second: seq<DependenceVector>, m: Meaning<R>, root: R, n: nat, trivial: bool,
                              first': seq<DependenceVector>, second': seq<DependenceVector>)
    requires Progress(rest + [dep], first, second, m, root, n, trivial)
    requires AllProduced(first', n, false) && AllProduced(second', n, true)
    requires Inhabited(first', m(root), false) && Inhabited(second', m(root), true)
    requires forall v :: ListHolds(first, v) ==> ListHolds(first', v)
    requires forall v :: ListHolds(second, v) ==> ListHolds(second', v)
    requires forall v :: v in m(dep.r) ==> ListHolds(first', v) || ListHolds(second', NegatedVector(v))
    ensures Progress(rest, first', second', m, root, n, trivial)
  {
    forall k | 0 <= k < |rest|
      ensures rest[k].Sound(m, root, n)
    {
      assert (rest + [dep])[k] == rest[k];
    }
    forall v | v in m(root) && Kept(v, trivial)
      ensures Accounted(rest, first', second', m, v)
    {
      if InSome(rest + [dep], m, v) && v !in m(dep.r) {
        Removed(rest, dep, m, v);
      }
    }
  }

  lemma FinishedForward<R(!new)>(rest: seq<Part<R>>, dep: Part<R>, d: DependenceVector, first: seq<DependenceVector>,
                                 second: seq<DependenceVector>, m: Meaning<R>, root: R, n: nat, trivial: bool)
    requires Progress(rest + [dep], first, second, m, root, n, trivial)
    requires Produced(d, n, false) && HoldsOne(d, m(root), false) && forall v :: v in m(dep.r) ==> d.Contains(v)
    ensures Progress(rest, first + [d], second, m, root, n, trivial)
  {
    OneMore(first, d, n, m(root), false);
    forall v: seq<int>
      ensures ListHolds(first, v) || (d.Valid() && d.Contains(v)) ==> ListHolds(first + [d], v)
    {
      HoldsMore(first, d, v);
    }
    FinishedPart(rest, dep, first, second, m, root, n, trivial, first + [d], second);
  }

  lemma FinishedBackward<R(!new)>(rest: seq<Part<R>>, dep: Part<R>, d: DependenceVector, first: seq<DependenceVector>,
                                  second: seq<DependenceVector>, m: Meaning<R>, root: R, n: nat, trivial: bool)
    requires Progress(rest + [dep], first, second, m, root, n, trivial)
    requires Produced(d, n, true) && HoldsOne(d, m(root), true)
    requires forall v :: v in m(dep.r) ==> d.Contains(NegatedVector(v))
    ensures Progress(rest, first, second + [d], m, root, n, trivial)
  {
    OneMore(second, d, n, m(root), true);
    forall v: seq<int>
      ensures ListHolds(second, v) || (d.Valid() && d.Contains(v)) ==> ListHolds(second + [d], v)
    {
      HoldsMore(second, d, v);
    }
    FinishedPart(rest, dep, first, second, m, root, n, trivial, first, second + [d]);
  }

  // ---------- Every vector has its own distances ----------

  ghost predicate FromAt<R>(o: Omega<R>, m: Meaning<R>, root: R, n: nat, d: DependenceVector, r: R, second: bool,
                            k: nat) {
    && k <= n == |d.lbounds| == |d.ubounds| && Nonempty(m, r)
    && (forall j :: 0 <= j < k ==> d.lbounds[j] == d.ubounds[j] == ZERO) && (k < n ==> d.lbounds[k].AboveZero())
    && Selects(m, r, root, n, k, if k == n then Undetermined else if second then Negative else Positive)
    && forall l :: k <= l < n ==> EndsInside(o, m, r, l, d.lbounds[l], d.ubounds[l], second)
  }

  /**
   The vector stands for r: all distances of the root that are zero before some level and
   have the sign of the list there, or are zero; its intervals are no wider than needed.
   */
  ghost predicate From<R>(o: Omega<R>, m: Meaning<R>, root: R, n: nat, d: DependenceVector, r: R, second: bool) {
    exists k: nat :: FromAt(o, m, root, n, d, r, second, k)
  }

  ghost predicate AllFrom<R>(o: Omega<R>, m: Meaning<R>, root: R, n: nat, ds: seq<DependenceVector>, rels: seq<R>,
                             second: bool) {
    |rels| == |ds| && forall k :: 0 <= k < |ds| ==> From(o, m, root, n, ds[k], rels[k], second)
  }

  ghost predicate AllLead(ds: seq<DependenceVector>) {
    forall k :: 0 <= k < |ds| ==> Leads(ds[k])
  }

  /** Each vector stands for distances of its own. */
  ghost predicate Explained<R(!new)>(o: Omega<R>, m: Meaning<R>, root: R, n: nat, first: seq<DependenceVector>,
                                     second: seq<DependenceVector>) {
    exists rels1, rels2 ::
      && AllFrom(o, m, root, n, first, rels1, false) && AllFrom(o, m, root, n, second, rels2, true)
      && AllSeparate(rels1 + rels2, m)
  }

  /** The same while there is work left. */
  ghost predicate Trail<R>(o: Omega<R>, parts: seq<Part<R>>, m: Meaning<R>, root: R, n: nat, trivial: bool,
                           first: seq<DependenceVector>, second: seq<DependenceVector>, rels1: seq<R>, rels2: seq<R>) {
    && (forall k :: 0 <= k < |parts| ==> Traced(o, parts[k], m, root, n))
    && AllFrom(o, m, root, n, first, rels1, false) && AllFrom(o, m, root, n, second, rels2, true)
    && AllSeparate(RelationsOf(parts) + (rels1 + rels2), m) && (trivial ==> AllLead(first))
  }

  ghost predicate Trailed<R(!new)>(o: Omega<R>, parts: seq<Part<R>>, m: Meaning<R>, root: R, n: nat, trivial: bool,
                                   first: seq<DependenceVector>, second: seq<DependenceVector>) {
    exists rels1, rels2 :: Trail(o, parts, m, root, n, trivial, first, second, rels1, rels2)
  }

  /** Relations that come from separate ones are separate if those from the same one are. */
  lemma SeparateAlong<R(!new)>(rels: seq<R>, now: seq<R>, at: seq<int>, m: Meaning<R>)
    requires AllSeparate(rels, m) && |at| == |now| && forall i :: 0 <= i < |at| ==> 0 <= at[i] < |rels|
    requires forall i, v :: 0 <= i < |now| && v in m(now[i]) ==> v in m(rels[at[i]])
    requires forall i, j :: 0 <= i < j < |now| && at[i] == at[j] ==> Separate(m, now[i], now[j])
    ensures AllSeparate(now, m)
  {
    forall i, j | 0 <= i < j < |now|
      ensures Separate(m, now[i], now[j])
    {
      if at[i] < at[j] {
        assert Separate(m, rels[at[i]], rels[at[j]]);
      } else if at[j] < at[i] {
        assert Separate(m, rels[at[j]], rels[at[i]]);
      }
    }
  }

  /** One relation is replaced by separate ones inside it. */
  lemma SeparateReplaced<R(!new)>(a: seq<R>, r: R, b: seq<R>, rels: seq<R>, m: Meaning<R>)
    requires AllSeparate((a + [r]) + b, m) && AllSeparate(rels, m)
    requires forall i, v :: 0 <= i < |rels| && v in m(rels[i]) ==> v in m(r)
    ensures AllSeparate((a + rels) + b, m)
  {
    var now := (a + rels) + b;
    var at := seq(|now|, i requires 0 <= i < |now| =>
      if i < |a| then i else if i < |a| + |rels| then |a| else i - |rels| + 1);
    forall i, j | 0 <= i < j < |now| && at[i] == at[j]
      ensures Separate(m, now[i], now[j])
    {
      assert now[i] == rels[i - |a|] && now[j] == rels[j - |a|];
    }
    SeparateAlong((a + [r]) + b, now, at, m);
  }

  /** One relation moves behind others. */
  lemma SeparateMoved<R(!new)>(a: seq<R>, r: R, b: seq<R>, c: seq<R>, m: Meaning<R>)
    requires AllSeparate((a + [r]) + (b + c), m)
    ensures AllSeparate(a + ((b + [r]) + c), m)
  {
    var now := a + ((b + [r]) + c);
    var at := seq(|now|, i requires 0 <= i < |now| =>
      if i < |a| then i else if i < |a| + |b| then i + 1 else if i == |a| + |b| then |a| else i);
    SeparateAlong((a + [r]) + (b + c), now, at, m);
  }

  lemma RelationsOfSum<R>(a: seq<Part<R>>, b: seq<Part<R>>)
    ensures RelationsOf(a + b) == RelationsOf(a) + RelationsOf(b)
  {
  }

  lemma RelationsOfOne<R>(a: seq<Part<R>>, p: Part<R>)
    ensures RelationsOf(a + [p]) == RelationsOf(a) + [p.r]
  {
  }

  lemma TrailRefined<R(!new)>(o: Omega<R>, rest: seq<Part<R>>, dep: Part<R>, next: seq<Part<R>>, m: Meaning<R>,
                              root: R, n: nat, trivial: bool, first: seq<DependenceVector>,
                              second: seq<DependenceVector>)
    requires Trailed(o, rest + [dep], m, root, n, trivial, first, second) && Divides(o, next, dep, m, root, n)
    ensures Trailed(o, rest + next, m, root, n, trivial, first, second)
  {
    var rels1, rels2 :| Trail(o, rest + [dep], m, root, n, trivial, first, second, rels1, rels2);
    RelationsOfOne(rest, dep);
    RelationsOfSum(rest, next);
    SeparateReplaced(RelationsOf(rest), dep.r, rels1 + rels2, RelationsOf(next), m);
    forall k | 0 <= k < |rest + next|
      ensures Traced(o, (rest + next)[k], m, root, n)
    {
      if k < |rest| {
        assert (rest + [dep])[k] == (rest + next)[k];
      }
    }
    assert Trail(o, rest + next, m, root, n, trivial, first, second, rels1, rels2);
  }

  lemma TrailDropped<R(!new)>(o: Omega<R>, rest: seq<Part<R>>, dep: Part<R>, m: Meaning<R>, root: R, n: nat,
                              trivial: bool, first: seq<DependenceVector>, second: seq<DependenceVector>)
    requires Trailed(o, rest + [dep], m, root, n, trivial, first, second)
    ensures Trailed(o, rest, m, root, n, trivial, first, second)
  {
    TrailRefined(o, rest, dep, [], m, root, n, trivial, first, second);
    assert rest + [] == rest;
  }

  lemma RestTraced<R(!new)>(o: Omega<R>, rest: seq<Part<R>>, dep: Part<R>, m: Meaning<R>, root: R, n: nat)
    requires forall k :: 0 <= k < |rest + [dep]| ==> Traced(o, (rest + [dep])[k], m, root, n)
    ensures forall k :: 0 <= k < |rest| ==> Traced(o, rest[k], m, root, n)
  {
    forall k | 0 <= k < |rest|
      ensures Traced(o, rest[k], m, root, n)
    {
      assert (rest + [dep])[k] == rest[k];
    }
  }

  lemma TrailForward<R(!new)>(o: Omega<R>, rest: seq<Part<R>>, dep: Part<R>, m: Meaning<R>, root: R, n: nat,
                              trivial: bool, first: seq<DependenceVector>, second: seq<DependenceVector>,
                              d: DependenceVector)
    requires Trailed(o, rest + [dep], m, root, n, trivial, first, second)
    requires From(o, m, root, n, d, dep.r, false) && (trivial ==> Leads(d))
    ensures Trailed(o, rest, m, root, n, trivial, first + [d], second)
  {
    var rels1, rels2 :| Trail(o, rest + [dep], m, root, n, trivial, first, second, rels1, rels2);
    RelationsOfOne(rest, dep);
    RestTraced(o, rest, dep, m, root, n);
    SeparateMoved(RelationsOf(rest), dep.r, rels1, rels2, m);
    assert Trail(o, rest, m, root, n, trivial, first + [d], second, rels1 + [dep.r], rels2);
  }

  lemma TrailBackward<R(!new)>(o: Omega<R>, rest: seq<Part<R>>, dep: Part<R>, m: Meaning<R>, root: R, n: nat,
                               trivial: bool, first: seq<DependenceVector>, second: seq<DependenceVector>,
                               d: DependenceVector)
    requires Trailed(o, rest + [dep], m, root, n, trivial, first, second) && From(o, m, root, n, d, dep.r, true)
    ensures Trailed(o, rest, m, root, n, trivial, first, second + [d])
  {
    var rels1, rels2 :| Trail(o, rest + [dep], m, root, n, trivial, first, second, rels1, rels2);
    RelationsOfOne(rest, dep);
    RestTraced(o, rest, dep, m, root, n);
    assert rels1 + (rels2 + [dep.r]) == ((rels1 + rels2) + [dep.r]) + [] && (rels1 + rels2) + [] == rels1 + rels2;
    SeparateMoved(RelationsOf(rest), dep.r, rels1 + rels2, [], m);
    assert Trail(o, rest, m, root, n, trivial, first, second + [d], rels1, rels2 + [dep.r]);
  }

  lemma LastTraced<R(!new)>(o: Omega<R>, rest: seq<Part<R>>, dep: Part<R>, m: Meaning<R>, root: R, n: nat,
                            trivial: bool, first: seq<DependenceVector>, second: seq<DependenceVector>)
    requires Trailed(o, rest + [dep], m, root, n, trivial, first, second)
    ensures Traced(o, dep, m, root, n)
  {
    var rels1, rels2 :| Trail(o, rest + [dep], m, root, n, trivial, first, second, rels1, rels2);
    assert (rest + [dep])[|rest|] == dep;
  }

  lemma TrailEnds<R(!new)>(o: Omega<R>, m: Meaning<R>, root: R, n: nat, trivial: bool, first: seq<DependenceVector>,
                           second: seq<DependenceVector>)
    requires Trailed(o, [], m, root, n, trivial, first, second)
    ensures Explained(o, m, root, n, first, second) && (trivial ==> AllLead(first))
  {
    var rels1, rels2 :| Trail(o, [], m, root, n, trivial, first, second, rels1, rels2);
    assert RelationsOf<R>([]) + (rels1 + rels2) == rels1 + rels2;
  }

  /** The vector of a finished part stands for the part's distances. */
  lemma FinishedFrom<R(!new)>(o: Omega<R>, dep: Part<R>, m: Meaning<R>, root: R, n: nat, d: DependenceVector)
    requires Exact(o, m, n) && dep.Sound(m, root, n) && dep.level == n && o.satisfiable(dep.r)
    requires Traced(o, dep, m, root, n) && d.lbounds == dep.lbounds && d.ubounds == dep.ubounds
    ensures From(o, m, root, n, d, dep.r, dep.dir.Negative?) && (!dep.dir.Undetermined? ==> Leads(d))
  {
    assert ExactFor(o, m, n, dep.r);
    if dep.dir.Undetermined? {
      assert FromAt(o, m, root, n, d, dep.r, false, n);
    } else {
      var k: nat :| LedAt(o, dep, m, root, n, k);
      assert FromAt(o, m, root, n, d, dep.r, dep.dir.Negative?, k);
    }
  }

  lemma KindPush(ds: seq<DependenceVector>, d: DependenceVector, srcWrites: bool, dstWrites: bool)
    requires AllOfKind(ds, srcWrites, dstWrites) && OfKind(d, srcWrites, dstWrites)
    ensures AllOfKind(ds + [d], srcWrites, dstWrites)
  {
  }

  lemma PushedForward<R(!new)>(o: Omega<R>, rest: seq<Part<R>>, dep: Part<R>, d: DependenceVector,
                               kind: DependenceType, first: seq<DependenceVector>, second: seq<DependenceVector>,
                               m: Meaning<R>, root: R, n: nat, trivial: bool)
    requires Exact(o, m, n) && Progress(rest + [dep], first, second, m, root, n, trivial)
    requires Trailed(o, rest + [dep], m, root, n, trivial, first, second) && Traced(o, dep, m, root, n)
    requires dep.Sound(m, root, n) && dep.level == n && o.satisfiable(dep.r) && !dep.dir.Negative?
    requires d == DependenceVector(kind, dep.lbounds, dep.ubounds, false, false) && d.IsData()
    requires trivial ==> !dep.dir.Undetermined?
    ensures Progress(rest, first + [d], second, m, root, n, trivial)
    ensures Trailed(o, rest, m, root, n, trivial, first + [d], second)
  {
    FinishedVector(dep, kind, o, m, root, n);
    FinishedFrom(o, dep, m, root, n, d);
    FinishedForward(rest, dep, d, first, second, m, root, n, trivial);
    TrailForward(o, rest, dep, m, root, n, trivial, first, second, d);
  }

  lemma PushedBackward<R(!new)>(o: Omega<R>, rest: seq<Part<R>>, dep: Part<R>, d: DependenceVector,
                                kind: DependenceType, first: seq<DependenceVector>, second: seq<DependenceVector>,
                                m: Meaning<R>, root: R, n: nat, trivial: bool)
    requires Exact(o, m, n) && Progress(rest + [dep], first, second, m, root, n, trivial)
    requires Trailed(o, rest + [dep], m, root, n, trivial, first, second) && Traced(o, dep, m, root, n)
    requires dep.Sound(m, root, n) && dep.level == n && o.satisfiable(dep.r) && dep.dir.Negative?
    requires d == DependenceVector(kind, dep.lbounds, dep.ubounds, false, false) && d.IsData()
    ensures Progress(rest, first, second + [d], m, root, n, trivial)
    ensures Trailed(o, rest, m, root, n, trivial, first, second + [d])
  {
    FinishedVector(dep, kind, o, m, root, n);
    FinishedFrom(o, dep, m, root, n, d);
    FinishedBackward(rest, dep, d, first, second, m, root, n, trivial);
    TrailBackward(o, rest, dep, m, root, n, trivial, first, second, d);
  }

  /** The vector of a finished part; a reference does not depend on itself in one iteration. */
  method Finish<R(!new)>(o: Omega<R>, dep: Part<R>, trivial: bool, srcWrites: bool, dstWrites: bool,
                         before: seq<DependenceVector>, behind: seq<DependenceVector>,
                         ghost rest: seq<Part<R>>, ghost m: Meaning<R>, ghost root: R, ghost n: nat)
    returns (first: seq<DependenceVector>, second: seq<DependenceVector>)
    requires Exact(o, m, n) && Progress(rest + [dep], before, behind, m, root, n, trivial)
    requires Trailed(o, rest + [dep], m, root, n, trivial, before, behind) && Traced(o, dep, m, root, n)
    requires dep.Sound(m, root, n) && dep.level == n && o.satisfiable(dep.r)
    requires AllOfKind(before, srcWrites, dstWrites) && AllOfKind(behind, dstWrites, srcWrites)
    ensures Progress(rest, first, second, m, root, n, trivial)
    ensures Trailed(o, rest, m, root, n, trivial, first, second)
    ensures AllOfKind(first, srcWrites, dstWrites) && AllOfKind(second, dstWrites, srcWrites)
  {
    first, second := before, behind;
    if dep.dir.Undetermined? && trivial {
      TrivialPart(dep, m, root, n);
      EmptyPart(rest, dep, first, second, m, root, n, trivial);
      TrailDropped(o, rest, dep, m, root, n, trivial, first, second);
    } else {
      var kind := if dep.dir.Negative? then Kind(dstWrites, srcWrites) else Kind(srcWrites, dstWrites);
      var dv := DependenceVector(kind, dep.lbounds, dep.ubounds, false, false);
      if dep.dir.Negative? {
        PushedBackward(o, rest, dep, dv, kind, first, second, m, root, n, trivial);
        KindPush(second, dv, dstWrites, srcWrites);
        second := second + [dv];
      } else {
        PushedForward(o, rest, dep, dv, kind, first, second, m, root, n, trivial);
        KindPush(first, dv, srcWrites, dstWrites);
        first := first + [dv];
      }
    }
  }

  /** One level more for a part. */
  method Refine<R(!new)>(o: Omega<R>, dep: Part<R>, trivial: bool, ghost m: Meaning<R>, ghost root: R, ghost n: nat)
    returns (next: seq<Part<R>>)
    requires Exact(o, m, n) && dep.Sound(m, root, n) && dep.level < n && Traced(o, dep, m, root, n)
    ensures Refines(next, dep, m, root, n, trivial) && Divides(o, next, dep, m, root, n)
  {
    if dep.dir.Undetermined? {
      next := RefineUndetermined(o, dep, trivial, m, root, n);
    } else {
      next := RefineDirected(o, dep, trivial, m, root, n);
    }
  }

  lemma WorkDone<R(!new)>(rest: seq<Part<R>>, dep: Part<R>, next: seq<Part<R>>, n: nat)
    requires |next| <= 3 && forall k :: 0 <= k < |next| ==> next[k].level == dep.level + 1
    requires next != [] ==> dep.level < n
    ensures Work(rest + next, n) < Work(rest + [dep], n)
  {
    assert (rest + [dep])[..|rest|] == rest;
    if next == [] {
      assert rest + next == rest;
    } else {
      WorkPush(rest, next, n, dep.level + 1);
      LessWork(|next|, n - dep.level);
    }
  }

  /** The last part of the list is dropped, finished or refined. */
  method Advance<R(!new)>(o: Omega<R>, rest: seq<Part<R>>, dep: Part<R>, trivial: bool, srcWrites: bool,
                          dstWrites: bool, before: seq<DependenceVector>, behind: seq<DependenceVector>,
                          ghost m: Meaning<R>, ghost root: R, n: nat)
    returns (working: seq<Part<R>>, first: seq<DependenceVector>, second: seq<DependenceVector>)
    requires Exact(o, m, n) && Progress(rest + [dep], before, behind, m, root, n, trivial) && dep.Sound(m, root, n)
    requires Trailed(o, rest + [dep], m, root, n, trivial, before, behind) && Traced(o, dep, m, root, n)
    requires AllOfKind(before, srcWrites, dstWrites) && AllOfKind(behind, dstWrites, srcWrites)
    ensures Progress(working, first, second, m, root, n, trivial)
    ensures Trailed(o, working, m, root, n, trivial, first, second)
    ensures AllOfKind(first, srcWrites, dstWrites) && AllOfKind(second, dstWrites, srcWrites)
    ensures Work(working, n) < Work(rest + [dep], n)
  {
    working, first, second := rest, before, behind;
    WorkDone(rest, dep, [], n);
    assert rest + [] == rest;
    if !o.satisfiable(dep.r) {
      assert ExactFor(o, m, n, dep.r);
      EmptyPart(rest, dep, first, second, m, root, n, trivial);
      TrailDropped(o, rest, dep, m, root, n, trivial, first, second);
    } else if dep.level == n {
      first, second := Finish(o, dep, trivial, srcWrites, dstWrites, first, second, rest, m, root, n);
    } else {
      var next := Refine(o, dep, trivial, m, root, n);
      RefinedPart(rest, dep, next, first, second, m, root, n, trivial);
      TrailRefined(o, rest, dep, next, m, root, n, trivial, first, second);
      WorkDone(rest, dep, next, n);
      working := rest + next;
    }
  }

  /**
   The lists cover the relation: every positive distance, and zero unless a reference
   is compared with itself, is in a vector of the first list, and the opposite of
   every negative one in a vector of the second. Every vector has one of the forms
   above, and holds some distance.
   */
  method RelationToVectors<R(!new)>(o: Omega<R>, r: R, n: nat, trivial: bool, srcWrites: bool, dstWrites: bool,
                                    ghost m: Meaning<R>)
    returns (first: seq<DependenceVector>, second: seq<DependenceVector>)
    requires Exact(o, m, n)
    ensures AllProduced(first, n, false) && AllProduced(second, n, true)
    ensures Inhabited(first, m(r), false) && Inhabited(second, m(r), true)
    ensures Covers(first, second, m(r), trivial)
    ensures AllOfKind(first, srcWrites, dstWrites) && AllOfKind(second, dstWrites, srcWrites)
    ensures Explained(o, m, r, n, first, second) && (trivial ==> AllLead(first))
  {
    var working := [Part(r, 0, Undetermined, seq(n, _ => ZERO), seq(n, _ => ZERO))];
    first, second := [], [];
    Started(o, m, r, n, trivial, working[0]);
    while working != []
      invariant Progress(working, first, second, m, r, n, trivial)
      invariant Trailed(o, working, m, r, n, trivial, first, second)
      invariant AllOfKind(first, srcWrites, dstWrites) && AllOfKind(second, dstWrites, srcWrites)
      decreases Work(working, n)
    {
      var rest, dep := working[..|working| - 1], working[|working| - 1];
      assert working == rest + [dep];
      LastTraced(o, rest, dep, m, r, n, trivial, first, second);
      working, first, second := Advance(o, rest, dep, trivial, srcWrites, dstWrites, first, second, m, r, n);
    }
    SortedBySign(m, r, n, trivial, first, second);
    TrailEnds(o, m, r, n, trivial, first, second);
  }

  /**
   Positive distances, and zero unless trivial, are in the first list; negative ones,
   unless trivial, turned around in the second.
   */
  ghost predicate Covers(first: seq<DependenceVector>, second: seq<DependenceVector>, reals: iset<seq<int>>,
                         trivial: bool) {
    && (forall v :: v in reals && (LexPositive(v) || (IsZero(v) && !trivial)) ==> ListHolds(first, v))
    && (forall v :: v in reals && LexNegative(v) && !trivial ==> ListHolds(second, NegatedVector(v)))
  }

  lemma Started<R(!new)>(o: Omega<R>, m: Meaning<R>, r: R, n: nat, trivial: bool, dep: Part<R>)
    requires Exact(o, m, n) && dep == Part(r, 0, Undetermined, seq(n, _ => ZERO), seq(n, _ => ZERO))
    ensures Progress([dep], [], [], m, r, n, trivial) && Trailed(o, [dep], m, r, n, trivial, [], [])
  {
    assert ExactFor(o, m, n, r);
    assert Trail(o, [dep], m, r, n, trivial, [], [], [], []);
    forall v | v in m(r)
      ensures InSome([dep], m, v)
    {
      assert v in m([dep][0].r);
    }
  }

  /** A finished part without a direction has only the zero distance. */
  lemma TrivialPart<R(!new)>(dep: Part<R>, m: Meaning<R>, root: R, n: nat)
    requires dep.Sound(m, root, n) && dep.level == n && dep.dir.Undetermined?
    ensures forall v :: v in m(dep.r) ==> !Kept(v, true)
  {
    forall v | v in m(dep.r)
      ensures !LexPositive(v)
    {
      ZeroSoFar(dep, m, root, n, v);
      Trichotomy(v);
    }
  }

  lemma LessWork(k: nat, levels: nat)
    requires k <= 3 && levels > 0
    ensures k * Steps(levels - 1) < Steps(levels)
  {
  }

  /** Vectors of either list hold no negative distances, so each distance is in the list of its sign. */
  lemma SortedBySign<R(!new)>(m: Meaning<R>, root: R, n: nat, trivial: bool, first: seq<DependenceVector>,
                              second: seq<DependenceVector>)
    requires Progress([], first, second, m, root, n, trivial)
    ensures Covers(first, second, m(root), trivial)
  {
    forall v | v in m(root) && (LexPositive(v) || (IsZero(v) && !trivial))
      ensures ListHolds(first, v)
    {
      assert Accounted([], first, second, m, v);
      OppositeSign(v);
      if ListHolds(second, NegatedVector(v)) {
        HeldIsPositive(second, n, NegatedVector(v));
        Trichotomy(NegatedVector(v));
      }
    }
    forall v | v in m(root) && LexNegative(v) && !trivial
      ensures ListHolds(second, NegatedVector(v))
    {
      assert Accounted([], first, second, m, v);
      Trichotomy(v);
      if ListHolds(first, v) {
        HeldIsNotNegative(first, n, v);
      }
    }
  }

  lemma OppositeSign(v: seq<int>)
    ensures LexPositive(v) ==> LexNegative(NegatedVector(v))
    ensures IsZero(v) ==> IsZero(NegatedVector(v))
  {
    if k :| PositiveAt(v, k) {
      assert NegativeAt(NegatedVector(v), k);
    }
  }

  lemma HeldIsPositive(ds: seq<DependenceVector>, n: nat, v: seq<int>)
    requires AllProduced(ds, n, true) && ListHolds(ds, v)
    ensures LexPositive(v)
  {
    var k :| 0 <= k < |ds| && ds[k].Valid() && ds[k].Contains(v);
    assert Produced(ds[k], n, true);
    LeadsIsPositive(ds[k], v);
  }

  lemma HeldIsNotNegative(ds: seq<DependenceVector>, n: nat, v: seq<int>)
    requires AllProduced(ds, n, false) && ListHolds(ds, v)
    ensures !LexNegative(v)
  {
    var k :| 0 <= k < |ds| && ds[k].Valid() && ds[k].Contains(v);
    assert Produced(ds[k], n, false);
    Trichotomy(v);
    if Leads(ds[k]) {
      LeadsIsPositive(ds[k], v);
    } else {
      ZeroHoldsZero(ds[k], v);
    }
  }

  // ---------- One vector for each level ----------

  /** The level of the first interval that is not zero, or n. */
  lemma LeadIsUnique<R(!new)>(o: Omega<R>, m: Meaning<R>, root: R, n: nat, d: DependenceVector, r: R, second: bool,
                              k: nat)
    requires From(o, m, root, n, d, r, second) && (LeadsAt(d.lbounds, d.ubounds, k) || (AllZero(d) && k == n))
    ensures FromAt(o, m, root, n, d, r, second, k)
  {
    var j: nat :| FromAt(o, m, root, n, d, r, second, j);
    assert j == k;
  }

  lemma SeparateInside<R>(a: seq<R>, b: seq<R>, m: Meaning<R>, i: nat, j: nat)
    requires AllSeparate(a + b, m) && i < j
    ensures j < |a| ==> Separate(m, a[i], a[j])
    ensures j < |b| ==> Separate(m, b[i], b[j])
  {
    if j < |a| {
      assert (a + b)[i] == a[i] && (a + b)[j] == a[j];
    }
    if j < |b| {
      assert (a + b)[|a| + i] == b[i] && (a + b)[|a| + j] == b[j];
    }
  }

  /** No two vectors of a list are led by the same level, and at most one is zero. */
  lemma OneVectorPerLevel<R(!new)>(o: Omega<R>, m: Meaning<R>, root: R, n: nat, first: seq<DependenceVector>,
                                   second: seq<DependenceVector>, backward: bool, i: nat, j: nat, k: nat)
    requires Explained(o, m, root, n, first, second)
    requires i < j < if backward then |second| else |first|
    ensures var ds := if backward then second else first;
            && !(LeadsAt(ds[i].lbounds, ds[i].ubounds, k) && LeadsAt(ds[j].lbounds, ds[j].ubounds, k))
            && !(AllZero(ds[i]) && AllZero(ds[j]))
  {
    var rels1, rels2 :| AllFrom(o, m, root, n, first, rels1, false) && AllFrom(o, m, root, n, second, rels2, true)
      && AllSeparate(rels1 + rels2, m);
    SeparateInside(rels1, rels2, m, i, j);
    var ds, rels := if backward then second else first, if backward then rels2 else rels1;
    assert Separate(m, rels[i], rels[j]);
    if LeadsAt(ds[i].lbounds, ds[i].ubounds, k) && LeadsAt(ds[j].lbounds, ds[j].ubounds, k) {
      SameLeadSameRelation(o, m, root, n, ds[i], rels[i], ds[j], rels[j], backward, k);
    }
    if AllZero(ds[i]) && AllZero(ds[j]) {
      SameLeadSameRelation(o, m, root, n, ds[i], rels[i], ds[j], rels[j], backward, n);
    }
  }

  lemma SameLeadSameRelation<R(!new)>(o: Omega<R>, m: Meaning<R>, root: R, n: nat, d: DependenceVector, r: R,
                                      e: DependenceVector, s: R, backward: bool, k: nat)
    requires From(o, m, root, n, d, r, backward) && From(o, m, root, n, e, s, backward)
    requires (LeadsAt(d.lbounds, d.ubounds, k) || (AllZero(d) && k == n))
             && (LeadsAt(e.lbounds, e.ubounds, k) || (AllZero(e) && k == n))
    ensures !Separate(m, r, s)
  {
    LeadIsUnique(o, m, root, n, d, r, backward, k);
    LeadIsUnique(o, m, root, n, e, s, backward, k);
    var v :| v in m(r);
    assert v in m(s);
  }
}
