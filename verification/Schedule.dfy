/**
 The schedule a control tree starts with: buildIS (chill/loop.cc:909-1128)
 numbers the loops and gives every statement a 2n+1 iteration map whose odd
 positions are lexical counters and whose even positions are loop values.
 */
module Schedule {
  import opened SourceTrees
  import opened Lists
  import opened Lexicographic
  import opened Execution
  import opened TreeOrder
  import opened DependenceOrder

  /** The payloads buildIS writes. */
  function NumberLoops(ts: seq<Tree>, level: nat): (r: seq<Tree>)
    ensures |r| == |ts|
    decreases ts
  {
    if ts == [] then [] else NumberLoops(ts[..|ts| - 1], level) + [NumberTree(ts[|ts| - 1], level)]
  }

  function NumberTree(t: Tree, level: nat): Tree
    decreases t
  {
    Tree(t.content, if t.content.Loop? then level else t.payload, NumberLoops(t.children, level + LoopCount(t)))
  }

  lemma {:induction false} NumberLoopsAt(ts: seq<Tree>, level: nat, i: nat)
    requires i < |ts|
    ensures NumberLoops(ts, level)[i] == NumberTree(ts[i], level)
    decreases |ts|
  {
    if i < |ts| - 1 {
      NumberLoopsAt(ts[..|ts| - 1], level, i);
    }
  }

  /** After it, loop payloads are the dimensions is_dependence_valid relies on. */
  lemma {:induction false} NumberLoopsNumbers(ts: seq<Tree>, level: nat)
    ensures Numbered(NumberLoops(ts, level), level)
    decreases ts
  {
    var r := NumberLoops(ts, level);
    forall i | 0 <= i < |r|
      ensures NumberedTree(r[i], level)
    {
      NumberLoopsAt(ts, level, i);
      NumberLoopsNumbers(ts[i].children, level + LoopCount(ts[i]));
    }
  }

  /** Numbering loops does not touch the payloads of ifs, so else-parts still follow their then-parts. */
  lemma {:induction false} NumberLoopsPaired(ts: seq<Tree>, level: nat)
    requires Paired(ts)
    ensures Paired(NumberLoops(ts, level))
    decreases ts
  {
    var r := NumberLoops(ts, level);
    forall k: nat | k < |r|
      ensures PairedAt(r, k) && Paired(r[k].children)
    {
      NumberLoopsAt(ts, level, k);
      assert PairedAt(ts, k);
      if k > 0 {
        NumberLoopsAt(ts, level, k - 1);
      }
      NumberLoopsPaired(ts[k].children, level + LoopCount(ts[k]));
    }
  }

  // ---------- Iteration maps ----------

  /** Lexical positions a list takes up: one for a block or a loop, those of its children for an if. */
  function Slots(ts: seq<Tree>): nat
    decreases ts
  {
    if ts == [] then 0 else Slots(ts[..|ts| - 1]) + SlotsOf(ts[|ts| - 1])
  }

  function SlotsOf(t: Tree): nat
    decreases t
  {
    if t.content.If? then Slots(t.children) else 1
  }

  /** No statement is under more than n loops. */
  ghost predicate Fits(ts: seq<Tree>, n: nat)
    decreases ts
  {
    forall i :: 0 <= i < |ts| ==> FitsTree(ts[i], n)
  }

  ghost predicate FitsTree(t: Tree, n: nat)
    decreases t
  {
    LoopCount(t) <= n && Fits(t.children, n - LoopCount(t))
  }

  /**
   The image of instance u of the statement at p: lexical counter, loop value,
   counter, and so on, from counter start, with zeros for missing loops.
   */
  ghost function Stamp(ts: seq<Tree>, p: seq<nat>, u: seq<int>, start: int, n: nat): (s: seq<int>)
    requires Address(ts, p) && |u| == Depth(ts, p) && Fits(ts, n)
    ensures |s| == 2 * n + 1
    decreases |p|
  {
    var t, here := ts[p[0]], start + Slots(ts[..p[0]]);
    assert FitsTree(t, n);
    if t.content.Block? then
      [here] + seq(2 * n, (i: int) => 0)
    else if t.content.Loop? then
      [here] + ([u[0]] + Stamp(t.children, p[1..], u[1..], 0, n - 1))
    else
      Stamp(t.children, p[1..], u, here, n)
  }

  lemma {:induction false} SlotsGrow(ts: seq<Tree>, i: nat, j: nat)
    requires i <= j <= |ts|
    ensures Slots(ts[..i]) <= Slots(ts[..j])
  {
    if i < j {
      SlotsGrow(ts, i, j - 1);
      assert ts[..j][..j - 1] == ts[..j - 1];
    }
  }

  lemma SlotsNext(ts: seq<Tree>, i: nat)
    requires i < |ts|
    ensures Slots(ts[..i + 1]) == Slots(ts[..i]) + SlotsOf(ts[i])
  {
    assert ts[..i + 1][..i] == ts[..i];
  }

  /** The slots of one child are among those of the list. */
  lemma SlotsWithin(ts: seq<Tree>, i: nat)
    requires i < |ts|
    ensures 0 <= Slots(ts[..i]) && Slots(ts[..i + 1]) <= Slots(ts)
  {
    SlotsGrow(ts, i + 1, |ts|);
    WholePrefix(ts);
  }

  /** The first counter of a stamp lies in the slots of the child it goes through. */
  lemma {:induction false} FirstSlot(ts: seq<Tree>, p: seq<nat>, u: seq<int>, start: int, n: nat)
    requires Address(ts, p) && |u| == Depth(ts, p) && Fits(ts, n)
    ensures start + Slots(ts[..p[0]]) <= Stamp(ts, p, u, start, n)[0] < start + Slots(ts[..p[0] + 1])
    decreases |p|
  {
    SlotsNext(ts, p[0]);
    var t, here := ts[p[0]], start + Slots(ts[..p[0]]);
    assert FitsTree(t, n);
    if t.content.If? {
      FirstSlot(t.children, p[1..], u, here, n);
      SlotsWithin(t.children, p[1]);
    }
  }

  lemma FirstDecides(s: seq<int>, t: seq<int>)
    requires |s| == |t| > 0 && s[0] < t[0]
    ensures LexBefore(s, t) && !LexBefore(t, s)
  {
    assert PositiveAt(Difference(t, s), 0);
    assert NegativeAt(Difference(s, t), 0);
    Trichotomy(Difference(s, t));
  }

  lemma LexBeforeIrreflexive(s: seq<int>)
    ensures !LexBefore(s, s)
  {
    Trichotomy(Difference(s, s));
  }

  lemma LoopStamps(here: int, v: int, w: int, s: seq<int>, t: seq<int>)
    requires |s| == |t|
    ensures LexBefore([here] + ([v] + s), [here] + ([w] + t)) <==> v < w || (v == w && LexBefore(s, t))
  {
    LexBeforeCons(here, [v] + s, here, [w] + t);
    LexBeforeCons(v, s, w, t);
  }

  lemma EarlierSlot(ts: seq<Tree>, p: seq<nat>, u: seq<int>, q: seq<nat>, w: seq<int>, start: int, n: nat)
    requires Address(ts, p) && Address(ts, q) && |u| == Depth(ts, p) && |w| == Depth(ts, q) && Fits(ts, n)
    requires p[0] < q[0]
    ensures LexBefore(Stamp(ts, p, u, start, n), Stamp(ts, q, w, start, n))
    ensures !LexBefore(Stamp(ts, q, w, start, n), Stamp(ts, p, u, start, n))
  {
    FirstSlot(ts, p, u, start, n);
    FirstSlot(ts, q, w, start, n);
    SlotsGrow(ts, p[0] + 1, q[0]);
    FirstDecides(Stamp(ts, p, u, start, n), Stamp(ts, q, w, start, n));
  }

  /** The initial schedule orders instances as the source runs them. */
  lemma {:induction false} StampOrderIsExecutionOrder(ts: seq<Tree>, p: seq<nat>, u: seq<int>, q: seq<nat>,
                                                      w: seq<int>, start: int, n: nat)
    requires Address(ts, p) && Address(ts, q) && |u| == Depth(ts, p) && |w| == Depth(ts, q) && Fits(ts, n)
    ensures LexBefore(Stamp(ts, p, u, start, n), Stamp(ts, q, w, start, n)) <==> RunsBefore(ts, p, u, q, w)
    decreases |p|
  {
    if p[0] < q[0] {
      EarlierSlot(ts, p, u, q, w, start, n);
    } else if q[0] < p[0] {
      EarlierSlot(ts, q, w, p, u, start, n);
    } else {
      var t, here := ts[p[0]], start + Slots(ts[..p[0]]);
      assert FitsTree(t, n);
      if t.content.Block? {
        LexBeforeIrreflexive(Stamp(ts, p, u, start, n));
        assert Stamp(ts, p, u, start, n) == Stamp(ts, q, w, start, n);
      } else if t.content.Loop? {
        StampOrderIsExecutionOrder(t.children, p[1..], u[1..], q[1..], w[1..], 0, n - 1);
        LoopStamps(here, u[0], w[0], Stamp(t.children, p[1..], u[1..], 0, n - 1),
                   Stamp(t.children, q[1..], w[1..], 0, n - 1));
      } else {
        StampOrderIsExecutionOrder(t.children, p[1..], u, q[1..], w, here, n);
      }
    }
  }

  /** Running instances by their initial stamps is running the source. */
  lemma InitialScheduleRunsTheSource(ts: seq<Tree>, env: Env, d: Instance, e: Instance, n: nat)
    requires Fits(ts, n) && Forward(env) && d in WholeRun(ts, env) && e in WholeRun(ts, env)
    ensures Address(ts, d.path) && Address(ts, e.path)
    ensures |d.iters| == Depth(ts, d.path) && |e.iters| == Depth(ts, e.path)
    ensures Precedes(WholeRun(ts, env), d, e) <==>
            LexBefore(Stamp(ts, d.path, d.iters, 0, n), Stamp(ts, e.path, e.iters, 0, n))
  {
    PrecedesIff(ts, env, d, e);
    StampOrderIsExecutionOrder(ts, d.path, d.iters, e.path, e.iters, 0, n);
  }
}
