/**
 sort_cudaized_statements (chill/cudaize_codegen_v2.cc:50-111): kernel groups
 and the remaining statements, ordered by their outermost lexical position.
 */
module CudaizedSort {
  import opened Lists

  // One output set and the kernel group it comes from, -1 for none.
  datatype Ordered = Ordered(stmts: set<int>, group: int)

  // ---------- Ordered sets and sorting ----------

  predicate LeastOf(s: set<int>, m: int) {
    m in s && forall x :: x in s ==> m <= x
  }

  lemma {:induction false} LeastMember(s: set<int>) returns (m: int)
    requires s != {}
    ensures LeastOf(s, m)
  {
    var x := SomeMember(s);
    if s == {x} {
      m := x;
    } else {
      var least := LeastMember(s - {x});
      assert forall y :: y in s ==> y == x || y in s - {x};
      m := if least < x then least else x;
    }
  }

  lemma MinimumExists(s: set<int>)
    requires s != {}
    ensures exists m :: LeastOf(s, m)
  {
    var m := LeastMember(s);
  }

  /** *s.begin() of a std::set. */
  function Begin(s: set<int>): (m: int)
    requires s != {}
    ensures m in s && forall x :: x in s ==> m <= x
  {
    MinimumExists(s);
    var m :| LeastOf(s, m);
    m
  }

  predicate Sorted(s: seq<int>) {
    forall i, j :: 0 <= i < j < |s| ==> s[i] <= s[j]
  }

  ghost predicate StrictlySorted(s: seq<int>) {
    forall i, j :: 0 <= i < j < |s| ==> s[i] < s[j]
  }

  function Insert(s: seq<int>, x: int): seq<int> {
    if s == [] || s[|s| - 1] <= x then s + [x] else Insert(s[..|s| - 1], x) + [s[|s| - 1]]
  }

  /** std::sort. */
  function SortInts(s: seq<int>): seq<int> {
    if s == [] then [] else Insert(SortInts(s[..|s| - 1]), s[|s| - 1])
  }

  lemma SortedPush(s: seq<int>, x: int)
    requires Sorted(s) && forall i :: 0 <= i < |s| ==> s[i] <= x
    ensures Sorted(s + [x]) && multiset(s + [x]) == multiset(s) + multiset{x}
  {
  }

  lemma {:induction false} InsertFacts(s: seq<int>, x: int)
    requires Sorted(s)
    ensures Sorted(Insert(s, x)) && multiset(Insert(s, x)) == multiset(s) + multiset{x}
  {
    if s != [] && s[|s| - 1] > x {
      var front, last := s[..|s| - 1], s[|s| - 1];
      InsertFacts(front, x);
      InsertBound(front, x, last);
      SortedPush(Insert(front, x), last);
      MultisetLast(s);
    }
  }

  lemma MultisetLast(s: seq<int>)
    requires s != []
    ensures multiset(s) == multiset(s[..|s| - 1]) + multiset{s[|s| - 1]}
  {
    assert s == s[..|s| - 1] + [s[|s| - 1]];
  }

  lemma {:induction false} InsertBound(s: seq<int>, x: int, top: int)
    requires x <= top && forall i :: 0 <= i < |s| ==> s[i] <= top
    ensures forall i :: 0 <= i < |Insert(s, x)| ==> Insert(s, x)[i] <= top
  {
    if s != [] && s[|s| - 1] > x {
      InsertBound(s[..|s| - 1], x, top);
    }
  }

  lemma {:induction false} SortFacts(s: seq<int>)
    ensures Sorted(SortInts(s)) && multiset(SortInts(s)) == multiset(s)
  {
    if s != [] {
      var front, last := s[..|s| - 1], s[|s| - 1];
      MultisetLast(s);
      SortFacts(front);
      InsertFacts(SortInts(front), last);
    }
  }

  lemma SortMembers(s: seq<int>)
    ensures Sorted(SortInts(s)) && forall k :: k in SortInts(s) <==> k in s
  {
    SortFacts(s);
    forall k
      ensures k in SortInts(s) <==> k in s
    {
      assert k in multiset(SortInts(s)) <==> k in multiset(s);
    }
  }

  // ---------- Specification ----------

  /** Index of the first k in ks, or |ks|. */
  function First(ks: seq<int>, k: int): (j: nat)
    ensures j <= |ks| && (forall i :: 0 <= i < j ==> ks[i] != k) && (j < |ks| ==> ks[j] == k)
  {
    if ks == [] then 0 else if ks[0] == k then 0 else 1 + First(ks[1..], k)
  }

  // keys[s] is the outermost lexical constant of statement s.
  datatype Input = Input(groups: seq<set<int>>, keys: seq<int>) {
    ghost predicate Valid() {
      forall j :: 0 <= j < |groups| ==> groups[j] != {} && forall s :: s in groups[j] ==> 0 <= s < |keys|
    }

    /** The key of a group: that of its first statement. */
    ghost function GroupKey(j: nat): int
      requires Valid() && j < |groups|
    {
      keys[Begin(groups[j])]
    }

    ghost function GroupKeys(): (ks: seq<int>)
      requires Valid()
      ensures |ks| == |groups| && forall j :: 0 <= j < |groups| ==> ks[j] == GroupKey(j)
    {
      seq(|groups|, j requires 0 <= j < |groups| => GroupKey(j))
    }

    ghost predicate Cudaized(s: int) {
      exists j :: 0 <= j < |groups| && s in groups[j]
    }

    /** Statement s, in no group, joins the first group with its key. */
    ghost predicate Joins(s: int, j: int)
      requires Valid()
    {
      0 <= s < |keys| && !Cudaized(s) && j == First(GroupKeys(), keys[s])
    }

    /** Group j with the statements below n that joined it. */
    ghost function Grown(j: nat, n: int): set<int>
      requires Valid() && j < |groups|
    {
      groups[j] + set s | 0 <= s < n && s < |keys| && Joins(s, j)
    }

    /** The key is that of a group or of a statement that joins none. */
    ghost predicate Listed(k: int, n: int)
      requires Valid()
    {
      k in GroupKeys() || exists s :: 0 <= s < n && s < |keys| && Joins(s, |groups|) && keys[s] == k
    }

    /** The output set for one key. */
    ghost function OutputFor(k: int): Ordered
      requires Valid()
    {
      var j := First(GroupKeys(), k);
      if j < |groups| then
        Ordered(Grown(j, |keys|), j)
      else
        Ordered(set s | 0 <= s < |keys| && !Cudaized(s) && keys[s] == k, -1)
    }

    /** ks lists the listed keys in increasing order and out is their output sets. */
    ghost predicate Result(ks: seq<int>, out: seq<Ordered>)
      requires Valid()
    {
      && StrictlySorted(ks) && (forall k :: k in ks <==> Listed(k, |keys|))
      && |out| == |ks| && forall i :: 0 <= i < |ks| ==> out[i] == OutputFor(ks[i])
    }

    /** out is the ordered list of output sets. */
    ghost predicate Output(out: seq<Ordered>)
      requires Valid()
    {
      exists ks :: Result(ks, out)
    }

    /** Joining statements never changes the key of a group. */
    lemma GrownKey(j: nat, n: int)
      requires Valid() && j < |groups|
      ensures Grown(j, n) != {} && 0 <= Begin(Grown(j, n)) < |keys| && keys[Begin(Grown(j, n))] == GroupKey(j)
    {
      var b, initial := Begin(Grown(j, n)), Begin(groups[j]);
      assert initial in Grown(j, n) && b <= initial;
      if b in groups[j] {
        assert b == initial;
      }
    }

    lemma GrownNext(j: nat, n: int)
      requires Valid() && j < |groups| && 0 <= n < |keys|
      ensures Grown(j, n + 1) == Grown(j, n) + if Joins(n, j) then {n} else {}
    {
    }

    // ---------- What the output is ----------

    /** Every output set is non-empty, and its first statement has the key it was listed for. */
    lemma OutputKey(k: int)
      requires Valid() && Listed(k, |keys|)
      ensures var o := OutputFor(k).stmts;
              o != {} && 0 <= Begin(o) < |keys| && keys[Begin(o)] == k
    {
      var j := First(GroupKeys(), k);
      if j < |groups| {
        GrownKey(j, |keys|);
      } else {
        var s :| 0 <= s < |keys| && Joins(s, |groups|) && keys[s] == k;
        assert s in OutputFor(k).stmts;
      }
    }

    /** The keys of the output sets, that is of their first statements, strictly increase. */
    lemma KeysIncrease(out: seq<Ordered>)
      requires Valid() && Output(out)
      ensures forall i :: 0 <= i < |out| ==> out[i].stmts != {} && 0 <= Begin(out[i].stmts) < |keys|
      ensures forall i, j :: 0 <= i < j < |out| ==> keys[Begin(out[i].stmts)] < keys[Begin(out[j].stmts)]
    {
      var ks :| Result(ks, out);
      forall i | 0 <= i < |out|
        ensures out[i].stmts != {} && 0 <= Begin(out[i].stmts) < |keys| && keys[Begin(out[i].stmts)] == ks[i]
      {
        OutputKey(ks[i]);
      }
    }

    /** The first group whose first statement has this key. */
    ghost predicate FirstGroup(j: nat, k: int)
      requires Valid()
    {
      && j < |groups| && keys[Begin(groups[j])] == k
      && forall i :: 0 <= i < j ==> keys[Begin(groups[i])] != k
    }

    ghost predicate InNoGroup(s: int) {
      0 <= s < |keys| && forall j :: 0 <= j < |groups| ==> s !in groups[j]
    }

    /**
     Under key k: the statements of no group that have it, together with the first group
     that has it, whose index is the tag; without one the tag is -1.
     */
    ghost predicate SetOf(o: Ordered, k: int)
      requires Valid()
    {
      if exists j: nat :: FirstGroup(j, k) then
        exists j: nat :: FirstGroup(j, k) && o.group == j
          && forall s :: s in o.stmts <==> s in groups[j] || (InNoGroup(s) && keys[s] == k)
      else
        o.group == -1 && forall s :: s in o.stmts <==> InNoGroup(s) && keys[s] == k
    }

    lemma OutputIsSet(k: int)
      requires Valid()
      ensures SetOf(OutputFor(k), k)
    {
      var j := First(GroupKeys(), k);
      assert forall i :: 0 <= i < |groups| ==> GroupKeys()[i] == keys[Begin(groups[i])];
      if j < |groups| {
        assert FirstGroup(j, k);
      }
      forall s | 0 <= s < |keys|
        ensures Cudaized(s) <==> !InNoGroup(s)
      {
      }
    }

    /** The key of some group, or of a statement in no group. */
    ghost predicate SomeKey(k: int)
      requires Valid()
    {
      (exists j :: 0 <= j < |groups| && keys[Begin(groups[j])] == k) || exists s :: InNoGroup(s) && keys[s] == k
    }

    lemma ListedIsSomeKey(k: int)
      requires Valid()
      ensures Listed(k, |keys|) <==> SomeKey(k)
    {
      if j: nat :| j < |groups| && keys[Begin(groups[j])] == k {
        assert GroupKeys()[j] == k;
      }
      if s :| InNoGroup(s) && keys[s] == k && k !in GroupKeys() {
        assert Joins(s, |groups|);
      }
    }

    /** The output has one set for each key that occurs, and each set is the one of its key. */
    lemma OutputSets(out: seq<Ordered>) returns (ks: seq<int>)
      requires Valid() && Output(out)
      ensures StrictlySorted(ks) && (forall k :: k in ks <==> SomeKey(k))
      ensures |out| == |ks| && forall i :: 0 <= i < |out| ==> SetOf(out[i], ks[i])
    {
      ks :| Result(ks, out);
      forall k
        ensures k in ks <==> SomeKey(k)
      {
        ListedIsSomeKey(k);
      }
      forall i | 0 <= i < |out|
        ensures SetOf(out[i], ks[i])
      {
        OutputIsSet(ks[i]);
      }
    }

    ghost predicate Disjoint() {
      forall i, j :: 0 <= i < j < |groups| ==> groups[i] !! groups[j]
    }

    ghost predicate DistinctKeys()
      requires Valid()
    {
      forall i, j :: 0 <= i < j < |groups| ==> GroupKey(i) != GroupKey(j)
    }

    ghost predicate InSome(out: seq<Ordered>, s: int) {
      exists i :: 0 <= i < |out| && s in out[i].stmts
    }

    ghost predicate HasTag(out: seq<Ordered>, g: int) {
      exists i :: 0 <= i < |out| && out[i].group == g
    }

    /** Every statement is in exactly one output set. */
    ghost predicate Partition(out: seq<Ordered>) {
      && (forall s :: 0 <= s < |keys| ==> InSome(out, s))
      && forall s, i, j :: 0 <= i < j < |out| ==> !(s in out[i].stmts && s in out[j].stmts)
    }

    /** The key under which statement s is output, when group keys are distinct. */
    ghost function Place(s: int): int
      requires Valid() && 0 <= s < |keys|
    {
      if Cudaized(s) then
        var j :| 0 <= j < |groups| && s in groups[j];
        GroupKey(j)
      else
        keys[s]
    }

    lemma FirstOfDistinct(j: nat)
      requires Valid() && DistinctKeys() && j < |groups|
      ensures First(GroupKeys(), GroupKey(j)) == j
    {
    }

    /** With disjoint groups of distinct keys, s is in the output set of its place and in no other. */
    lemma PlaceIff(s: int, k: int)
      requires Valid() && Disjoint() && DistinctKeys() && 0 <= s < |keys|
      ensures Listed(Place(s), |keys|)
      ensures s in OutputFor(k).stmts <==> k == Place(s)
    {
      var j := First(GroupKeys(), k);
      if Cudaized(s) {
        var g :| 0 <= g < |groups| && s in groups[g] && Place(s) == GroupKey(g);
        assert GroupKeys()[g] == GroupKey(g);
        FirstOfDistinct(g);
        if j < |groups| && s in groups[j] {
          assert j == g;
        }
      } else {
        var f := First(GroupKeys(), keys[s]);
        assert Joins(s, f);
        if f < |groups| {
          assert GroupKeys()[f] == keys[s];
        }
      }
    }

    /** The output is an ordered partition exactly when the disjoint groups have distinct keys. */
    lemma PartitionIff(out: seq<Ordered>)
      requires Valid() && Disjoint() && Output(out)
      ensures Partition(out) <==> DistinctKeys()
    {
      var ks :| Result(ks, out);
      if DistinctKeys() {
        forall s | 0 <= s < |keys|
          ensures InSome(out, s)
        {
          PlaceIff(s, Place(s));
          var i :| 0 <= i < |ks| && ks[i] == Place(s);
          assert s in out[i].stmts;
        }
        forall s, i, j | 0 <= i < j < |out|
          ensures !(s in out[i].stmts && s in out[j].stmts)
        {
          if s in out[i].stmts {
            InRange(ks[i], s);
            PlaceIff(s, ks[i]);
            PlaceIff(s, ks[j]);
          }
        }
      } else {
        var i, j :| 0 <= i < j < |groups| && GroupKey(i) == GroupKey(j);
        LaterGroupLost(i, j, Begin(groups[j]), out);
        assert !InSome(out, Begin(groups[j]));
      }
    }

    lemma InRange(k: int, s: int)
      requires Valid() && s in OutputFor(k).stmts
      ensures 0 <= s < |keys|
    {
    }

    /** A group whose key an earlier disjoint group has is dropped. */
    lemma LaterGroupLost(i: nat, j: nat, s: int, out: seq<Ordered>)
      requires Valid() && Disjoint() && Output(out) && i < j < |groups| && GroupKey(i) == GroupKey(j) && s in groups[j]
      ensures 0 <= s < |keys| && forall m :: 0 <= m < |out| ==> s !in out[m].stmts
    {
      var ks :| Result(ks, out);
      forall m | 0 <= m < |out|
        ensures s !in out[m].stmts
      {
        var g := First(GroupKeys(), ks[m]);
        assert Cudaized(s);
        if g < |groups| && g != j {
          assert groups[if g < j then g else j] !! groups[if g < j then j else g];
        }
      }
    }

    /**
     A tag j >= 0 names a group the set contains, no two sets have the same such tag, and
     distinct keys give every group a set.
     */
    lemma Tags(out: seq<Ordered>)
      requires Valid() && Output(out)
      ensures forall i :: 0 <= i < |out| ==>
                            if out[i].group == -1 then forall s :: s in out[i].stmts ==> !Cudaized(s)
                            else 0 <= out[i].group < |groups| && groups[out[i].group] <= out[i].stmts
      ensures forall i, j :: 0 <= i < j < |out| && out[i].group != -1 ==> out[i].group != out[j].group
      ensures DistinctKeys() ==> forall g :: 0 <= g < |groups| ==> HasTag(out, g)
    {
      var ks :| Result(ks, out);
      forall i, j | 0 <= i < j < |out| && out[i].group != -1
        ensures out[i].group != out[j].group
      {
        assert GroupKeys()[out[i].group] == ks[i];
      }
      if DistinctKeys() {
        forall g | 0 <= g < |groups|
          ensures HasTag(out, g)
        {
          FirstOfDistinct(g);
          assert GroupKeys()[g] in GroupKeys() && Listed(GroupKey(g), |keys|);
          var i :| 0 <= i < |ks| && ks[i] == GroupKey(g);
          assert out[i].group == g;
        }
      }
    }
  }

  // ---------- The method ----------

  method CollectGroups(cudaized: seq<set<int>>, keys: seq<int>) returns (sortAid: seq<int>, all: set<int>)
    requires Input(cudaized, keys).Valid()
    ensures sortAid == Input(cudaized, keys).GroupKeys()
    ensures forall s :: s in all <==> Input(cudaized, keys).Cudaized(s)
  {
    sortAid, all := [], {};
    for j := 0 to |cudaized|
      invariant sortAid == Input(cudaized, keys).GroupKeys()[..j]
      invariant forall s :: s in all <==> exists k :: 0 <= k < j && s in cudaized[k]
    {
      sortAid := sortAid + [keys[Begin(cudaized[j])]];
      all := all + cudaized[j];
    }
  }

  /** The cudaized array holds the groups grown by statements below n. */
  ghost predicate GrownTo(input: Input, cudaized: seq<set<int>>, n: int)
    requires input.Valid()
  {
    |cudaized| == |input.groups| && forall j :: 0 <= j < |cudaized| ==> cudaized[j] == input.Grown(j, n)
  }

  /** Index of the first group whose first statement has this key. */
  method FindGroup(ghost input: Input, ghost n: int, cudaized: seq<set<int>>, keys: seq<int>, key: int) returns (j: nat)
    requires input.Valid() && input.keys == keys && GrownTo(input, cudaized, n)
    ensures j == First(input.GroupKeys(), key)
  {
    j := 0;
    ghost var ks := input.GroupKeys();
    while j < |cudaized|
      invariant j <= |cudaized|
      invariant j <= First(ks, key)
    {
      input.GrownKey(j, n);
      if keys[Begin(cudaized[j])] == key {
        break;
      }
      FirstLater(ks, key, j);
      j := j + 1;
    }
  }

  /** First lies beyond every index before it that has another key. */
  lemma FirstLater(ks: seq<int>, key: int, j: nat)
    requires j < |ks| && j <= First(ks, key) && ks[j] != key
    ensures j < First(ks, key)
  {
  }

  ghost predicate Covers(input: Input, sortAid: seq<int>, n: int)
    requires input.Valid()
  {
    forall k :: k in sortAid <==> input.Listed(k, n)
  }

  /** Statement n grows the group it joins, or lists its own key. */
  lemma JoinStep(input: Input, cudaized: seq<set<int>>, sortAid: seq<int>, n: nat, j: nat)
    requires input.Valid() && n < |input.keys| && GrownTo(input, cudaized, n) && Covers(input, sortAid, n)
    requires !input.Cudaized(n) && j == First(input.GroupKeys(), input.keys[n])
    ensures j < |cudaized| ==> GrownTo(input, cudaized[j := cudaized[j] + {n}], n + 1) && Covers(input, sortAid, n + 1)
    ensures j == |cudaized| ==> GrownTo(input, cudaized, n + 1) && Covers(input, sortAid + [input.keys[n]], n + 1)
  {
    forall i | 0 <= i < |cudaized|
      ensures input.Grown(i, n + 1) == input.Grown(i, n) + if i == j then {n} else {}
    {
      input.GrownNext(i, n);
    }
    forall k
      ensures input.Listed(k, n + 1) <==> input.Listed(k, n) || (j == |cudaized| && k == input.keys[n])
    {
      if j == |cudaized| && k == input.keys[n] {
        assert input.Joins(n, |input.groups|);
      }
    }
  }

  lemma CudaizedStep(input: Input, cudaized: seq<set<int>>, sortAid: seq<int>, n: nat)
    requires input.Valid() && n < |input.keys| && GrownTo(input, cudaized, n) && Covers(input, sortAid, n)
    requires input.Cudaized(n)
    ensures GrownTo(input, cudaized, n + 1) && Covers(input, sortAid, n + 1)
  {
    forall i | 0 <= i < |cudaized|
      ensures input.Grown(i, n + 1) == input.Grown(i, n)
    {
      input.GrownNext(i, n);
    }
  }

  method JoinStatements(ghost input: Input, groups: seq<set<int>>, keys: seq<int>, all: set<int>, aid: seq<int>)
    returns (cudaized: seq<set<int>>, sortAid: seq<int>)
    requires input == Input(groups, keys) && input.Valid() && aid == input.GroupKeys()
    requires forall s :: s in all <==> input.Cudaized(s)
    ensures GrownTo(input, cudaized, |keys|) && Covers(input, sortAid, |keys|)
  {
    cudaized, sortAid := groups, aid;
    assert forall j :: 0 <= j < |groups| ==> input.Grown(j, 0) == groups[j];
    for i := 0 to |keys|
      invariant GrownTo(input, cudaized, i) && Covers(input, sortAid, i)
    {
      if i !in all {
        var j := FindGroup(input, i, cudaized, keys, keys[i]);
        JoinStep(input, cudaized, sortAid, i, j);
        if j < |cudaized| {
          cudaized := cudaized[j := cudaized[j] + {i}];
        } else {
          sortAid := sortAid + [keys[i]];
        }
      } else {
        CudaizedStep(input, cudaized, sortAid, i);
      }
    }
  }

  /** The output set for one listed key. */
  method OutputSet(ghost input: Input, cudaized: seq<set<int>>, keys: seq<int>, all: set<int>, key: int)
    returns (o: Ordered)
    requires input.Valid() && input.keys == keys && GrownTo(input, cudaized, |keys|)
    requires forall s :: s in all <==> input.Cudaized(s)
    ensures o == input.OutputFor(key)
  {
    var j := FindGroup(input, |keys|, cudaized, keys, key);
    if j < |cudaized| {
      return Ordered(cudaized[j], j);
    }
    var temp: set<int> := {};
    for s := 0 to |keys|
      invariant temp == set t | 0 <= t < s && !input.Cudaized(t) && keys[t] == key
    {
      if s !in all && key == keys[s] {
        temp := temp + {s};
      }
    }
    return Ordered(temp, -1);
  }

  /** The output is the sets of the listed keys in increasing key order. */
  method SortCudaizedStatements(groups: seq<set<int>>, keys: seq<int>) returns (ordered: seq<Ordered>)
    requires Input(groups, keys).Valid()
    ensures Input(groups, keys).Output(ordered)
  {
    ghost var input := Input(groups, keys);
    var aid, all := CollectGroups(groups, keys);
    var cudaized, sortAid := JoinStatements(input, groups, keys, all, aid);
    SortMembers(sortAid);
    sortAid := SortInts(sortAid);
    ordered := [];
    ghost var ks: seq<int> := [];
    var i := 0;
    while i < |sortAid|
      invariant Emitted(sortAid, i, ks)
      invariant |ordered| == |ks| && forall m :: 0 <= m < |ks| ==> ordered[m] == input.OutputFor(ks[m])
    {
      var start := i;
      while i + 1 < |sortAid| && sortAid[i + 1] == sortAid[i]
        invariant start <= i < |sortAid| && forall m :: start <= m <= i ==> sortAid[m] == sortAid[start]
      {
        i := i + 1;
      }
      var o := OutputSet(input, cudaized, keys, all, sortAid[start]);
      EmitNext(sortAid, start, i, ks);
      ordered, ks := ordered + [o], ks + [sortAid[start]];
      i := i + 1;
    }
    assert sortAid[..|sortAid|] == sortAid;
    assert input.Result(ks, ordered);
  }

  /** ks are the distinct values among the first i, and the next value is new. */
  ghost predicate Emitted(s: seq<int>, i: nat, ks: seq<int>) {
    && i <= |s| && StrictlySorted(ks) && (forall k :: k in ks <==> k in s[..i])
    && (i < |s| ==> forall m :: 0 <= m < |ks| ==> ks[m] < s[i])
  }

  lemma EmitNext(s: seq<int>, start: nat, i: nat, ks: seq<int>)
    requires Sorted(s) && start <= i < |s| && Emitted(s, start, ks)
    requires forall m :: start <= m <= i ==> s[m] == s[start]
    requires i + 1 < |s| ==> s[i + 1] != s[i]
    ensures Emitted(s, i + 1, ks + [s[start]])
  {
    var next := ks + [s[start]];
    forall k
      ensures k in next <==> k in s[..i + 1]
    {
      assert s[..i + 1] == s[..start] + s[start..i + 1];
      if k in s[start..i + 1] {
        var m :| 0 <= m < |s[start..i + 1]| && s[start..i + 1][m] == k;
        assert s[start + m] == k;
      }
      if k == s[start] {
        assert s[start..i + 1][0] == k;
      }
    }
    if i + 1 < |s| {
      assert s[start] <= s[i + 1];
    }
  }
}
