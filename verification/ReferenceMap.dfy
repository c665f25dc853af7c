/**
 mapRefstoStatements (chill/irtools.cc:445-485): array references are grouped
 by statement with provisional ids that later references overwrite.
 */
module ReferenceMap {
  import opened Lists

  // symbol is the array, statement the enclosing statement of the reference.
  datatype Reference = Reference(symbol: int, statement: int, isWrite: bool)

  predicate SameStatement(a: Reference, b: Reference) {
    a.statement == b.statement
  }

  /** The references touch the same array from different statements and one writes. */
  predicate Conflict(a: Reference, b: Reference) {
    !SameStatement(a, b) && a.symbol == b.symbol && (a.isWrite || b.isWrite)
  }

  /**
   The ids after the inner loop of reference i has handled references below j.
   Different statements never share an id; references of one statement agree
   from the first of them that has been handled.
   */
  ghost predicate Progress(access: seq<Reference>, ids: seq<int>, next: int, i: nat, j: nat) {
    && |ids| == |access| && next >= 1
    && (forall k :: 0 <= k < |ids| ==> ids[k] == -1 || 1 <= ids[k] < next)
    && (forall k :: 0 <= k < |ids| && (i > 0 || k < j) ==> ids[k] != -1)
    && (forall k, l {:trigger SameStatement(access[k], access[l])} ::
          0 <= k < |ids| && 0 <= l < |ids| && ids[k] != -1 && ids[l] != -1 && !SameStatement(access[k], access[l]) ==>
            ids[k] != ids[l])
    && (forall k, l {:trigger SameStatement(access[k], access[l])} ::
          0 <= k <= l < |ids| && Handled(k, l, i, j) && SameStatement(access[k], access[l]) ==> ids[l] == ids[k])
  }

  /** The pair k, l has been visited before i, j. */
  predicate Handled(k: int, l: int, i: int, j: int) {
    k < i || (k == i && l < j)
  }

  /** An id is given to a reference that has none. */
  function Assigned(ids: seq<int>, k: nat, next: int): seq<int>
    requires k < |ids|
  {
    if ids[k] == -1 then ids[k := next] else ids
  }

  function NextId(ids: seq<int>, k: nat, next: int): int
    requires k < |ids|
  {
    if ids[k] == -1 then next + 1 else next
  }

  lemma AssignKeeps(access: seq<Reference>, ids: seq<int>, next: int, i: nat, j: nat, k: nat)
    requires Progress(access, ids, next, i, j) && k < |ids| && i <= j && (k == j || k == i)
    ensures Progress(access, Assigned(ids, k, next), NextId(ids, k, next), i, j)
  {
  }

  lemma SameStep(access: seq<Reference>, ids: seq<int>, next: int, i: nat, j: nat)
    requires Progress(access, ids, next, i, j) && i <= j < |ids| && SameStatement(access[i], access[j])
    requires ids[i] != -1
    ensures Progress(access, ids[j := ids[i]], next, i, j + 1)
  {
    var after := ids[j := ids[i]];
    forall k, l | 0 <= k < |ids| && 0 <= l < |ids| && after[k] != -1 && after[l] != -1
      && !SameStatement(access[k], access[l])
      ensures after[k] != after[l]
    {
      assert !SameStatement(access[if k == j then i else k], access[if l == j then i else l]);
    }
    forall k, l | 0 <= k <= l < |ids| && Handled(k, l, i, j + 1) && SameStatement(access[k], access[l])
      ensures after[l] == after[k]
    {
      if l == j && k < i {
        assert SameStatement(access[k], access[i]);
      } else if k == j && k != i {
        assert false;
      }
    }
  }

  lemma DifferentStep(access: seq<Reference>, ids: seq<int>, next: int, i: nat, j: nat)
    requires Progress(access, ids, next, i, j) && i <= j < |ids| && !SameStatement(access[i], access[j])
    requires ids[j] != -1
    ensures Progress(access, ids, next, i, j + 1)
  {
  }

  lemma NextRow(access: seq<Reference>, ids: seq<int>, next: int, i: nat)
    requires Progress(access, ids, next, i, |access|) && i < |access|
    ensures Progress(access, ids, next, i + 1, i + 1)
  {
  }

  // ---------- What is collected ----------

  /** Indices below n that conflict with some reference. */
  ghost function Conflicting(access: seq<Reference>): set<int> {
    set k | 0 <= k < |access| && exists l :: 0 <= l < |access| && Conflict(access[k], access[l])
  }

  /** References in a conflicting pair of reference i and one of i..j-1. */
  ghost function RowConflicts(access: seq<Reference>, i: nat, j: nat): set<int>
    requires i < |access| && j <= |access|
  {
    if j <= i then {} else RowConflicts(access, i, j - 1) + if Conflict(access[i], access[j - 1]) then {i, j - 1}
      else {}
  }

  /** Those of the first i rows. */
  ghost function RowsConflicts(access: seq<Reference>, i: nat): set<int>
    requires i <= |access|
  {
    if i == 0 then {} else RowsConflicts(access, i - 1) + RowConflicts(access, i - 1, |access|)
  }

  lemma {:induction false} RowConflictsMembers(access: seq<Reference>, i: nat, j: nat, k: int)
    requires i < |access| && j <= |access|
    ensures k in RowConflicts(access, i, j) <==>
            exists l :: i <= l < j && Conflict(access[i], access[l]) && (k == i || k == l)
  {
    if j > i {
      RowConflictsMembers(access, i, j - 1, k);
    }
  }

  lemma {:induction false} RowsConflictsMembers(access: seq<Reference>, i: nat, k: int)
    requires i <= |access|
    ensures k in RowsConflicts(access, i) <==>
            exists m, l :: 0 <= m < i && m <= l < |access| && Conflict(access[m], access[l]) && (k == m || k == l)
  {
    if i > 0 {
      RowsConflictsMembers(access, i - 1, k);
      RowConflictsMembers(access, i - 1, |access|, k);
    }
  }

  lemma AllConflicts(access: seq<Reference>)
    ensures RowsConflicts(access, |access|) == Conflicting(access)
  {
    forall k
      ensures k in RowsConflicts(access, |access|) <==> k in Conflicting(access)
    {
      RowsConflictsMembers(access, |access|, k);
      if k in Conflicting(access) {
        var l :| 0 <= l < |access| && Conflict(access[k], access[l]);
        assert Conflict(access[if k <= l then k else l], access[if k <= l then l else k]);
      }
      if m, l :| 0 <= m < |access| && m <= l < |access| && Conflict(access[m], access[l]) && (k == m || k == l) {
        assert Conflict(access[k], access[if k == m then l else m]);
      }
    }
  }

  /** A reference is collected for another one of a different statement that uses its array, one of them writing. */
  lemma ConflictingIff(access: seq<Reference>, k: nat)
    requires k < |access|
    ensures k in Conflicting(access) <==>
            exists l ::
              && 0 <= l < |access| && access[l].statement != access[k].statement
              && access[l].symbol == access[k].symbol && (access[k].isWrite || access[l].isWrite)
  {
    forall l | 0 <= l < |access|
      ensures Conflict(access[k], access[l]) <==>
              access[l].statement != access[k].statement && access[l].symbol == access[k].symbol
              && (access[k].isWrite || access[l].isWrite)
    {
    }
  }

  // ---------- The method ----------

  /** std::map::insert of an empty set: keeps an existing entry. */
  function Insert(m: map<int, set<int>>, id: int): map<int, set<int>> {
    if id in m then m else m[id := {}]
  }

  ghost function FirstIds(ids: seq<int>, n: nat): set<int>
    requires n <= |ids|
  {
    set k | 0 <= k < n :: ids[k]
  }

  /** now is old with empty entries for the new keys. */
  ghost predicate Extended(initial: map<int, set<int>>, now: map<int, set<int>>, keys: set<int>) {
    && now.Keys == initial.Keys + keys
    && forall id :: id in now ==> now[id] == if id in initial then initial[id] else {}
  }

  /** Gives reference k the next id if it has none. */
  method AssignId(ref2Stmt: array<int>, k: nat, stmtId: int) returns (next: int)
    requires k < ref2Stmt.Length
    modifies ref2Stmt
    ensures ref2Stmt[..] == Assigned(old(ref2Stmt[..]), k, stmtId) && next == NextId(old(ref2Stmt[..]), k, stmtId)
  {
    next := stmtId;
    if ref2Stmt[k] == -1 {
      ref2Stmt[k] := stmtId;
      next := stmtId + 1;
    }
  }

  /** The body of both loops, for references i and j. */
  method VisitPair(access: seq<Reference>, ref2Stmt: array<int>, i: nat, j: nat, stmtId: int, rMap: map<int, set<int>>,
                   tnrStmts: set<int>)
    returns (next: int, rMap': map<int, set<int>>, tnrStmts': set<int>)
    requires i <= j < |access| == ref2Stmt.Length && Progress(access, ref2Stmt[..], stmtId, i, j)
    modifies ref2Stmt
    ensures Progress(access, ref2Stmt[..], next, i, j + 1)
    ensures forall k :: 0 <= k < j && k <= i ==> ref2Stmt[k] == old(ref2Stmt[k])
    ensures rMap' == if SameStatement(access[i], access[j]) then Insert(rMap, ref2Stmt[i]) else rMap
    ensures tnrStmts' == tnrStmts + if Conflict(access[i], access[j]) then {i, j} else {}
  {
    rMap', tnrStmts' := rMap, tnrStmts;
    if SameStatement(access[i], access[j]) {
      AssignKeeps(access, ref2Stmt[..], stmtId, i, j, i);
      next := AssignId(ref2Stmt, i, stmtId);
      SameStep(access, ref2Stmt[..], next, i, j);
      ghost var ids := ref2Stmt[..];
      ref2Stmt[j] := ref2Stmt[i];
      assert ref2Stmt[..] == ids[j := ids[i]];
      rMap' := Insert(rMap, ref2Stmt[i]);
    } else {
      next := AssignId(ref2Stmt, i, stmtId);
      AssignKeeps(access, ref2Stmt[..], next, i, j, j);
      next := AssignId(ref2Stmt, j, next);
      DifferentStep(access, ref2Stmt[..], next, i, j);
      if access[i].symbol == access[j].symbol && (access[i].isWrite || access[j].isWrite) {
        tnrStmts' := tnrStmts + {i, j};
      }
    }
  }

  /** The inner loop: reference i against itself and every later one. */
  method VisitRow(access: seq<Reference>, ref2Stmt: array<int>, i: nat, stmtId: int, rMap: map<int, set<int>>,
                  tnrStmts: set<int>, ghost earlier: set<int>)
    returns (next: int, rMap': map<int, set<int>>, tnrStmts': set<int>)
    requires i < |access| == ref2Stmt.Length && Progress(access, ref2Stmt[..], stmtId, i, i)
    requires tnrStmts == earlier + RowsConflicts(access, i)
    modifies ref2Stmt
    ensures Progress(access, ref2Stmt[..], next, i + 1, i + 1)
    ensures forall k :: 0 <= k < i ==> ref2Stmt[k] == old(ref2Stmt[k])
    ensures rMap' == Insert(rMap, ref2Stmt[i])
    ensures tnrStmts' == earlier + RowsConflicts(access, i + 1)
  {
    next, rMap', tnrStmts' := stmtId, rMap, tnrStmts;
    for j := i to |access|
      invariant Progress(access, ref2Stmt[..], next, i, j)
      invariant forall k :: 0 <= k < i ==> ref2Stmt[k] == old(ref2Stmt[k])
      invariant rMap' == if j == i then rMap else Insert(rMap, ref2Stmt[i])
      invariant tnrStmts' == tnrStmts + RowConflicts(access, i, j)
    {
      next, rMap', tnrStmts' := VisitPair(access, ref2Stmt, i, j, next, rMap', tnrStmts');
    }
    NextRow(access, ref2Stmt[..], next, i);
  }

  /** Adding the key of reference i, whose earlier ids did not change. */
  lemma InsertNext(m: map<int, set<int>>, now: map<int, set<int>>, ids: seq<int>, ids': seq<int>, i: nat)
    requires i < |ids'| == |ids| && Extended(m, now, FirstIds(ids, i)) && forall k :: 0 <= k < i ==> ids'[k] == ids[k]
    ensures Extended(m, Insert(now, ids'[i]), FirstIds(ids', i + 1))
  {
    assert FirstIds(ids', i + 1) == FirstIds(ids, i) + {ids'[i]};
  }

  lemma AllHandled(access: seq<Reference>, ids: seq<int>, next: int)
    requires Progress(access, ids, next, |access|, |access|)
    ensures forall i :: 0 <= i < |ids| ==> ids[i] >= 1
    ensures forall i, j :: 0 <= i < |ids| && 0 <= j < |ids| ==>
            (ids[i] == ids[j] <==> access[i].statement == access[j].statement)
  {
    forall i, j | 0 <= i < |ids| && 0 <= j < |ids|
      ensures ids[i] == ids[j] <==> SameStatement(access[i], access[j])
    {
      if SameStatement(access[i], access[j]) {
        assert SameStatement(access[j], access[i]);
      }
    }
  }

  method CollectIds(ref2Stmt: array<int>, refs: set<int>, nrStmts: set<int>) returns (r: set<int>)
    requires forall k :: k in refs ==> 0 <= k < ref2Stmt.Length
    ensures r == nrStmts + set k | k in refs :: ref2Stmt[k]
  {
    r := nrStmts;
    var rest := refs;
    while rest != {}
      invariant rest <= refs
      invariant r == nrStmts + set k | k in refs - rest :: ref2Stmt[k]
      decreases rest
    {
      ghost var m := SomeMember(rest);
      var k :| k in rest;
      assert refs - (rest - {k}) == (refs - rest) + {k};
      r, rest := r + {ref2Stmt[k]}, rest - {k};
    }
    assert refs - {} == refs;
  }

  /**
   The final ids tell statements apart exactly, rMap has gained exactly the
   final ids, and nrStmts exactly the ids of statements with a reference that
   conflicts with one of another statement.
   */
  method MapRefsToStatements(access: seq<Reference>, ref2Stmt: array<int>, rMap: map<int, set<int>>,
                             tnrStmts: set<int>, nrStmts: set<int>)
    returns (rMap': map<int, set<int>>, tnrStmts': set<int>, nrStmts': set<int>)
    requires ref2Stmt.Length == |access| && forall k :: 0 <= k < |access| ==> ref2Stmt[k] == -1
    requires forall k :: k in tnrStmts ==> 0 <= k < |access|
    modifies ref2Stmt
    ensures forall i :: 0 <= i < |access| ==> ref2Stmt[i] >= 1
    ensures forall i, j :: 0 <= i < |access| && 0 <= j < |access| ==>
                             (ref2Stmt[i] == ref2Stmt[j] <==> access[i].statement == access[j].statement)
    ensures Extended(rMap, rMap', FirstIds(ref2Stmt[..], |access|))
    ensures tnrStmts' == tnrStmts + Conflicting(access)
    ensures forall k :: k in tnrStmts' ==> 0 <= k < |access|
    ensures nrStmts' == nrStmts + set k | k in tnrStmts' :: ref2Stmt[k]
  {
    AllConflicts(access);
    var stmtId := 1;
    rMap', tnrStmts' := rMap, tnrStmts;
    for i := 0 to |access|
      invariant Progress(access, ref2Stmt[..], stmtId, i, i)
      invariant Extended(rMap, rMap', FirstIds(ref2Stmt[..], i))
      invariant tnrStmts' == tnrStmts + RowsConflicts(access, i)
    {
      ghost var before, keys := ref2Stmt[..], rMap';
      stmtId, rMap', tnrStmts' := VisitRow(access, ref2Stmt, i, stmtId, rMap', tnrStmts', tnrStmts);
      InsertNext(rMap, keys, before, ref2Stmt[..], i);
    }
    AllHandled(access, ref2Stmt[..], stmtId);
    nrStmts' := CollectIds(ref2Stmt, tnrStmts', nrStmts);
  }
}
