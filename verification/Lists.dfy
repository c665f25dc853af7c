/** Left-to-right list traversals with an exception, over abstract elements. */
module Lists {
  import opened Outcomes

  /** Results of f on the first k elements, concatenated; the first exception wins. */
  ghost function FlatMap<S, T>(xs: seq<S>, f: S -> Result<seq<T>>, k: nat): (r: Result<seq<T>>)
    requires k <= |xs|
  {
    if k == 0 then
      Ok([])
    else
      match FlatMap(xs, f, k - 1)
      case Throw(e) => Throw(e)
      case Ok(ys) =>
        match f(xs[k - 1])
        case Throw(e) => Throw(e)
        case Ok(zs) => Ok(ys + zs)
  }

  lemma FlatMapNext<S, T>(xs: seq<S>, f: S -> Result<seq<T>>, k: nat, r: Result<seq<T>>)
    requires k < |xs| && FlatMap(xs, f, k).Ok? && f(xs[k]) == r
    ensures FlatMap(xs, f, k + 1) == if r.Ok? then Ok(FlatMap(xs, f, k).value + r.value) else r
  {
  }

  lemma {:induction false} FlatMapStays<S, T>(xs: seq<S>, f: S -> Result<seq<T>>, k: nat, n: nat)
    requires k <= n <= |xs| && FlatMap(xs, f, k).Throw?
    ensures FlatMap(xs, f, n) == FlatMap(xs, f, k)
  {
    if k < n {
      FlatMapStays(xs, f, k, n - 1);
    }
  }

  /** The first exception is the result. */
  lemma FlatMapStops<S, T>(xs: seq<S>, f: S -> Result<seq<T>>, k: nat, r: Result<seq<T>>)
    requires k < |xs| && FlatMap(xs, f, k).Ok? && f(xs[k]) == r && r.Throw?
    ensures FlatMap(xs, f, |xs|) == r
  {
    FlatMapNext(xs, f, k, r);
    FlatMapStays(xs, f, k + 1, |xs|);
  }

  /** An exception comes from some element, and any element's exception ends the traversal. */
  lemma {:induction false} FlatMapThrows<S, T>(xs: seq<S>, f: S -> Result<seq<T>>, k: nat)
    requires k <= |xs|
    ensures FlatMap(xs, f, k).Throw? <==> exists m :: 0 <= m < k && f(xs[m]).Throw?
  {
    if k > 0 {
      FlatMapThrows(xs, f, k - 1);
    }
  }

  lemma {:induction false} FlatMapError<S, T>(xs: seq<S>, f: S -> Result<seq<T>>, k: nat, e: Error)
    requires k <= |xs| && FlatMap(xs, f, k).Throw?
    requires forall m :: 0 <= m < |xs| && f(xs[m]).Throw? ==> f(xs[m]).error == e
    ensures FlatMap(xs, f, k) == Throw(e)
  {
    if FlatMap(xs, f, k - 1).Throw? {
      FlatMapError(xs, f, k - 1, e);
    }
  }

  lemma {:induction false} FlatMapMembers<S, T>(xs: seq<S>, f: S -> Result<seq<T>>, k: nat, y: T)
    requires k <= |xs| && FlatMap(xs, f, k).Ok?
    ensures y in FlatMap(xs, f, k).value <==> exists m :: 0 <= m < k && f(xs[m]).Ok? && y in f(xs[m]).value
  {
    if k > 0 {
      FlatMapMembers(xs, f, k - 1, y);
    }
  }

  /** If f gives one element each, the results are in place. */
  lemma {:induction false} FlatMapSingles<S, T>(xs: seq<S>, f: S -> Result<seq<T>>, k: nat)
    requires k <= |xs| && FlatMap(xs, f, k).Ok?
    requires forall m :: 0 <= m < k && f(xs[m]).Ok? ==> |f(xs[m]).value| == 1
    ensures |FlatMap(xs, f, k).value| == k
    ensures forall m :: 0 <= m < k ==> f(xs[m]).Ok? && FlatMap(xs, f, k).value[m] == f(xs[m]).value[0]
  {
    if k > 0 {
      FlatMapSingles(xs, f, k - 1);
    }
  }

  /** The first k elements that satisfy p, in order. */
  ghost function Filter<T>(xs: seq<T>, p: T -> bool, k: nat): (ys: seq<T>)
    requires k <= |xs|
  {
    if k == 0 then [] else Filter(xs, p, k - 1) + (if p(xs[k - 1]) then [xs[k - 1]] else [])
  }

  lemma {:induction false} FilterMembers<T>(xs: seq<T>, p: T -> bool, k: nat, y: T)
    requires k <= |xs|
    ensures y in Filter(xs, p, k) <==> exists m :: 0 <= m < k && xs[m] == y && p(y)
  {
    if k > 0 {
      FilterMembers(xs, p, k - 1, y);
    }
  }

  lemma {:induction false} FilterSame<T>(xs: seq<T>, p: T -> bool, q: T -> bool, k: nat)
    requires k <= |xs| && forall m :: 0 <= m < k ==> p(xs[m]) == q(xs[m])
    ensures Filter(xs, p, k) == Filter(xs, q, k)
  {
    if k > 0 {
      FilterSame(xs, p, q, k - 1);
    }
  }

  lemma {:induction false} FilterAppend<T>(xs: seq<T>, x: T, p: T -> bool, k: nat)
    requires k <= |xs|
    ensures Filter(xs + [x], p, k) == Filter(xs, p, k)
  {
    if k > 0 {
      FilterAppend(xs, x, p, k - 1);
    }
  }

  lemma {:induction false} FilterTwice<T>(xs: seq<T>, p: T -> bool, q: T -> bool, both: T -> bool, k: nat)
    requires k <= |xs|
    requires forall m :: 0 <= m < |xs| ==> both(xs[m]) == (p(xs[m]) && q(xs[m]))
    ensures Filter(Filter(xs, p, k), q, |Filter(xs, p, k)|) == Filter(xs, both, k)
  {
    if k > 0 {
      FilterTwice(xs, p, q, both, k - 1);
      var ys, x := Filter(xs, p, k - 1), xs[k - 1];
      if p(x) {
        FilterAppend(ys, x, q, |ys|);
      } else {
        assert ys + [] == ys;
      }
    }
  }

  /** f of the elements, concatenated. */
  function Flatten<S, T>(xs: seq<S>, f: S -> seq<T>): seq<T> {
    if xs == [] then [] else Flatten(xs[..|xs| - 1], f) + f(xs[|xs| - 1])
  }

  lemma FlattenPush<S, T>(xs: seq<S>, x: S, f: S -> seq<T>)
    ensures Flatten(xs + [x], f) == Flatten(xs, f) + f(x)
  {
    assert (xs + [x])[..|xs|] == xs;
  }

  predicate Every<T>(xs: seq<T>, p: T -> bool) {
    xs == [] || (Every(xs[..|xs| - 1], p) && p(xs[|xs| - 1]))
  }

  lemma EveryPush<T>(xs: seq<T>, x: T, p: T -> bool)
    ensures Every(xs + [x], p) == (Every(xs, p) && p(x))
  {
    assert (xs + [x])[..|xs|] == xs;
  }

  lemma EveryOne<T>(x: T, p: T -> bool)
    ensures Every([x], p) == p(x)
  {
    EveryPush([], x, p);
    assert [] + [x] == [x];
  }

  lemma {:induction false} EveryAppend<T>(xs: seq<T>, ys: seq<T>, p: T -> bool)
    ensures Every(xs + ys, p) == (Every(xs, p) && Every(ys, p))
    decreases |ys|
  {
    if ys == [] {
      assert xs + ys == xs;
    } else {
      EveryAppend(xs, ys[..|ys| - 1], p);
      assert (xs + ys)[..|xs + ys| - 1] == xs + ys[..|ys| - 1];
    }
  }

  /** Without an exception, FlatMap concatenates the results. */
  lemma {:induction false} FlatMapIsFlatten<S, T>(xs: seq<S>, f: S -> Result<seq<T>>, g: S -> seq<T>, k: nat)
    requires k <= |xs| && FlatMap(xs, f, k).Ok? && forall x :: g(x) == f(x).GetOr([])
    ensures FlatMap(xs, f, k).value == Flatten(xs[..k], g)
  {
    if k > 0 {
      FlatMapIsFlatten(xs, f, g, k - 1);
      PrefixNext(xs, k);
      FlattenPush(xs[..k - 1], xs[k - 1], g);
    }
  }

  /** If g gives one element each, Flatten maps it over the list. */
  lemma {:induction false} FlattenSingles<S, T>(xs: seq<S>, ys: seq<T>, g: S -> seq<T>)
    requires |ys| == |xs| && forall k :: 0 <= k < |xs| ==> g(xs[k]) == [ys[k]]
    ensures Flatten(xs, g) == ys
  {
    if xs != [] {
      FlattenSingles(xs[..|xs| - 1], ys[..|ys| - 1], g);
    }
  }

  /** Flatten looks at the elements only. */
  lemma {:induction false} FlattenSame<S, T>(xs: seq<S>, f: S -> seq<T>, g: S -> seq<T>)
    requires forall k :: 0 <= k < |xs| ==> f(xs[k]) == g(xs[k])
    ensures Flatten(xs, f) == Flatten(xs, g)
  {
    if xs != [] {
      FlattenSame(xs[..|xs| - 1], f, g);
    }
  }

  /** Every element of the concatenation comes from one of the lists. */
  lemma {:induction false} FlattenMember<S, T>(xs: seq<S>, f: S -> seq<T>, y: T)
    ensures y in Flatten(xs, f) <==> exists k :: 0 <= k < |xs| && y in f(xs[k])
  {
    if xs != [] {
      FlattenMember(xs[..|xs| - 1], f, y);
    }
  }

  lemma PrefixNext<S>(xs: seq<S>, k: nat)
    requires 0 < k <= |xs|
    ensures xs[..k] == xs[..k - 1] + [xs[k - 1]]
  {
  }

  lemma AppendLast<S>(xs: seq<S>, ys: seq<S>)
    requires ys != []
    ensures xs + ys == xs + ys[..|ys| - 1] + [ys[|ys| - 1]]
    ensures ys == ys[..|ys| - 1] + [ys[|ys| - 1]]
  {
  }

  lemma AppendAssociates<S>(xs: seq<S>, ys: seq<S>, zs: seq<S>)
    ensures xs + ys + zs == xs + (ys + zs)
  {
  }

  lemma WholePrefix<S>(xs: seq<S>)
    ensures xs[..|xs|] == xs
  {
  }

  lemma FlattenOne<S, T>(x: S, f: S -> seq<T>)
    ensures Flatten([x], f) == f(x)
  {
    FlattenPush([], x, f);
    assert [] + [x] == [x];
  }

  lemma {:induction false} FlattenAppend<S, T>(xs: seq<S>, ys: seq<S>, f: S -> seq<T>)
    ensures Flatten(xs + ys, f) == Flatten(xs, f) + Flatten(ys, f)
    decreases |ys|
  {
    if ys == [] {
      assert xs + ys == xs;
    } else {
      var front, last := ys[..|ys| - 1], ys[|ys| - 1];
      FlattenAppend(xs, front, f);
      AppendLast(xs, ys);
      FlattenPush(xs + front, last, f);
      FlattenPush(front, last, f);
      AppendAssociates(Flatten(xs, f), Flatten(front, f), f(last));
    }
  }

  lemma {:induction false} FlattenAlike<S, T, U>(xs: seq<S>, ys: seq<T>, f: S -> seq<U>, g: T -> seq<U>)
    requires |xs| == |ys| && forall k :: 0 <= k < |xs| ==> f(xs[k]) == g(ys[k])
    ensures Flatten(xs, f) == Flatten(ys, g)
  {
    if xs != [] {
      FlattenAlike(xs[..|xs| - 1], ys[..|ys| - 1], f, g);
    }
  }

  lemma {:induction false} FlattenNothing<S, T>(xs: seq<S>, f: S -> seq<T>)
    requires forall k :: 0 <= k < |xs| ==> f(xs[k]) == []
    ensures Flatten(xs, f) == []
  {
    if xs != [] {
      FlattenNothing(xs[..|xs| - 1], f);
    }
  }

  /** steps[k + 1] is steps[k] with adds[k] behind it; only adds[at], if it exists, gives something. */
  lemma {:induction false} FlattenSteps<S, T>(steps: seq<seq<S>>, adds: seq<seq<S>>, f: S -> seq<T>, at: int,
                                              on: seq<T>, k: nat)
    requires |steps| == |adds| + 1 && steps[0] == [] && k <= |adds|
    requires forall i {:trigger adds[i]} :: 0 <= i < |adds| ==> steps[i + 1] == steps[i] + adds[i]
    requires forall i :: 0 <= i < |adds| ==> Flatten(adds[i], f) == if i == at then on else []
    ensures Flatten(steps[k], f) == if 0 <= at < k then on else []
  {
    if k > 0 {
      FlattenSteps(steps, adds, f, at, on, k - 1);
      var step, add := steps[k - 1], adds[k - 1];
      assert steps[k] == step + add;
      FlattenAppend(step, add, f);
    }
  }

  lemma SomeMember<T>(s: set<T>) returns (x: T)
    requires s != {}
    ensures x in s
  {
    x :| x in s;
  }
}
