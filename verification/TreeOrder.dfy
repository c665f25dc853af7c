/**
 The sequential execution of a control tree: which statement instances run, in
 which order, and what that order is in terms of iteration distances.
 */
module TreeOrder {
  import opened SourceTrees
  import opened Execution
  import opened Lexicographic

  // ---------- Statements and instances ----------

  /** path leads from the forest to a block node. */
  ghost predicate Address(ts: seq<Tree>, path: seq<nat>)
    decreases |path|
  {
    && path != [] && path[0] < |ts|
    && (ts[path[0]].content.Block? <==> |path| == 1)
    && (|path| > 1 ==> Address(ts[path[0]].children, path[1..]))
  }

  function LoopCount(t: Tree): nat {
    if t.content.Loop? then 1 else 0
  }

  /** Number of loops around the statement. */
  ghost function Depth(ts: seq<Tree>, path: seq<nat>): nat
    requires Address(ts, path)
    decreases |path|
  {
    if |path| == 1 then 0 else LoopCount(ts[path[0]]) + Depth(ts[path[0]].children, path[1..])
  }

  // One execution of a block: where it is and the values of the loops around it.
  datatype Instance = Instance(path: seq<nat>, iters: seq<int>)

  // One run, under given outer iterations: the values of the loop at an address, and the condition of the if whose
  // then-part is at an address.
  datatype Env = Env(values: (seq<nat>, seq<int>) -> seq<int>, holds: (seq<nat>, seq<int>) -> bool)

  /** The address of the then-part an else-part follows. */
  function ThenAt(at: seq<nat>): (a: seq<nat>)
    ensures |a| == |at|
  {
    if at == [] || at[|at| - 1] == 0 then at else at[..|at| - 1] + [at[|at| - 1] - 1]
  }

  /** The then-part runs when the condition holds, the else-part of the same if when it does not. */
  predicate Taken(t: Tree, at: seq<nat>, outer: seq<int>, env: Env) {
    if IsElse(t) then !env.holds(ThenAt(at), outer) else env.holds(at, outer)
  }

  ghost predicate Increasing(vs: seq<int>) {
    forall i, j :: 0 <= i < j < |vs| ==> vs[i] < vs[j]
  }

  /** Every loop counts upwards. */
  ghost predicate Forward(env: Env) {
    forall at, outer :: Increasing(env.values(at, outer))
  }

  // ---------- Sequential execution ----------

  /** Executes children k.. of the list at address at. */
  function Trace(ts: seq<Tree>, k: nat, at: seq<nat>, outer: seq<int>, env: Env): seq<Instance>
    requires k <= |ts|
    decreases ts, 2, |ts| - k
  {
    if k == |ts| then [] else TraceNode(ts[k], at + [k], outer, env) + Trace(ts, k + 1, at, outer, env)
  }

  function TraceNode(t: Tree, at: seq<nat>, outer: seq<int>, env: Env): seq<Instance>
    decreases t, 1, 0
  {
    match t.content
    case Block(_) => [Instance(at, outer)]
    case Loop(_) => TraceLoop(t, at, outer, env.values(at, outer), env)
    case If(_, _) => if Taken(t, at, outer, env) then Trace(t.children, 0, at, outer, env) else []
  }

  function TraceLoop(t: Tree, at: seq<nat>, outer: seq<int>, vs: seq<int>, env: Env): seq<Instance>
    decreases t, 0, |vs|
  {
    if vs == [] then [] else Trace(t.children, 0, at, outer + [vs[0]], env) + TraceLoop(t, at, outer, vs[1..], env)
  }

  /** The run of the whole tree. */
  function WholeRun(ts: seq<Tree>, env: Env): seq<Instance> {
    Trace(ts, 0, [], [], env)
  }

  // ---------- The order, structurally ----------

  /** Instance u of the statement at p runs before instance w of the statement at q. */
  ghost predicate RunsBefore(ts: seq<Tree>, p: seq<nat>, u: seq<int>, q: seq<nat>, w: seq<int>)
    requires Address(ts, p) && Address(ts, q) && |u| == Depth(ts, p) && |w| == Depth(ts, q)
    decreases |p|
  {
    if p[0] != q[0] then
      p[0] < q[0]
    else if |p| == 1 then
      false
    else if ts[p[0]].content.Loop? then
      u[0] < w[0] || (u[0] == w[0] && RunsBefore(ts[p[0]].children, p[1..], u[1..], q[1..], w[1..]))
    else
      RunsBefore(ts[p[0]].children, p[1..], u, q[1..], w)
  }

  /** e is an instance below the list at address at, under outer, in child k or later. */
  ghost predicate Below(ts: seq<Tree>, k: nat, at: seq<nat>, outer: seq<int>, e: Instance) {
    && |at| <= |e.path| && e.path[..|at|] == at && |outer| <= |e.iters| && e.iters[..|outer|] == outer
    && Address(ts, e.path[|at|..]) && Depth(ts, e.path[|at|..]) == |e.iters| - |outer|
    && k <= e.path[|at|]
  }

  ghost predicate BelowBefore(ts: seq<Tree>, at: seq<nat>, outer: seq<int>, d: Instance, e: Instance) {
    && Below(ts, 0, at, outer, d) && Below(ts, 0, at, outer, e)
    && RunsBefore(ts, d.path[|at|..], d.iters[|outer|..], e.path[|at|..], e.iters[|outer|..])
  }

  /** Every element of s is below, and s is strictly ordered by RunsBefore. */
  ghost predicate InOrder(ts: seq<Tree>, k: nat, at: seq<nat>, outer: seq<int>, s: seq<Instance>) {
    && (forall i :: 0 <= i < |s| ==> Below(ts, k, at, outer, s[i]))
    && forall i, j :: 0 <= i < j < |s| ==> BelowBefore(ts, at, outer, s[i], s[j])
  }

  /** The iterations around the children of t: one more when t is a loop. */
  function Inside(t: Tree, outer: seq<int>, v: int): seq<int> {
    if t.content.Loop? then outer + [v] else outer
  }

  /** What is below child k, inside iteration v if that is a loop, is below the list. */
  lemma StepDown(ts: seq<Tree>, k: nat, at: seq<nat>, outer: seq<int>, v: int, e: Instance)
    requires k < |ts| && !ts[k].content.Block?
    requires Below(ts[k].children, 0, at + [k], Inside(ts[k], outer, v), e)
    ensures Below(ts, k, at, outer, e) && e.path[|at|] == k
    ensures e.path[|at|..][1..] == e.path[|at + [k]|..]
    ensures ts[k].content.Loop? ==> |outer| < |e.iters| && e.iters[|outer|] == v
    ensures e.iters[|outer|..][LoopCount(ts[k])..] == e.iters[|Inside(ts[k], outer, v)|..]
  {
    var inner := Inside(ts[k], outer, v);
    assert e.path[..|at|] == e.path[..|at| + 1][..|at|] == at;
    assert e.path[|at|] == e.path[..|at| + 1][|at|] == k;
    assert e.path[|at|..][1..] == e.path[|at| + 1..];
    assert e.iters[..|outer|] == e.iters[..|inner|][..|outer|];
    if ts[k].content.Loop? {
      assert e.iters[|outer|] == e.iters[..|inner|][|outer|];
    }
  }

  /** The order inside child k, and inside one iteration, is the order of the list. */
  lemma StepDownBefore(ts: seq<Tree>, k: nat, at: seq<nat>, outer: seq<int>, v: int, d: Instance, e: Instance)
    requires k < |ts| && !ts[k].content.Block?
    requires BelowBefore(ts[k].children, at + [k], Inside(ts[k], outer, v), d, e)
    ensures BelowBefore(ts, at, outer, d, e)
  {
    StepDown(ts, k, at, outer, v, d);
    StepDown(ts, k, at, outer, v, e);
    if ts[k].content.If? {
      assert d.iters[|outer|..][0..] == d.iters[|outer|..] && e.iters[|outer|..][0..] == e.iters[|outer|..];
    }
  }

  /** An earlier iteration comes first. */
  lemma EarlierIteration(ts: seq<Tree>, k: nat, at: seq<nat>, outer: seq<int>, v: int, w: int, d: Instance, e: Instance)
    requires k < |ts| && ts[k].content.Loop? && v < w
    requires Below(ts[k].children, 0, at + [k], outer + [v], d) && Below(ts[k].children, 0, at + [k], outer + [w], e)
    ensures BelowBefore(ts, at, outer, d, e)
  {
    StepDown(ts, k, at, outer, v, d);
    StepDown(ts, k, at, outer, w, e);
  }

  /** An earlier child comes first. */
  lemma EarlierChild(ts: seq<Tree>, k: nat, at: seq<nat>, outer: seq<int>, d: Instance, e: Instance)
    requires Below(ts, 0, at, outer, d) && Below(ts, k, at, outer, e) && d.path[|at|] < k
    ensures BelowBefore(ts, at, outer, d, e)
  {
  }

  /** Below child k exactly. */
  ghost predicate InChild(ts: seq<Tree>, k: nat, at: seq<nat>, outer: seq<int>, s: seq<Instance>) {
    InOrder(ts, k, at, outer, s) && forall i :: 0 <= i < |s| ==> s[i].path[|at|] == k
  }

  lemma {:induction false} TraceInOrder(ts: seq<Tree>, k: nat, at: seq<nat>, outer: seq<int>, env: Env)
    requires k <= |ts| && Forward(env)
    ensures InOrder(ts, k, at, outer, Trace(ts, k, at, outer, env))
    decreases ts, 2, |ts| - k
  {
    if k < |ts| {
      TraceNodeInOrder(ts, k, at, outer, env);
      TraceInOrder(ts, k + 1, at, outer, env);
      ChildThenRest(ts, k, at, outer, TraceNode(ts[k], at + [k], outer, env), Trace(ts, k + 1, at, outer, env));
    }
  }

  lemma ChildThenRest(ts: seq<Tree>, k: nat, at: seq<nat>, outer: seq<int>, s: seq<Instance>, rest: seq<Instance>)
    requires k < |ts| && InChild(ts, k, at, outer, s) && InOrder(ts, k + 1, at, outer, rest)
    ensures InOrder(ts, k, at, outer, s + rest)
  {
    var all := s + rest;
    forall i, j | 0 <= i < j < |all|
      ensures BelowBefore(ts, at, outer, all[i], all[j])
    {
      if i < |s| <= j {
        EarlierChild(ts, k + 1, at, outer, s[i], rest[j - |s|]);
      } else if j < |s| {
        assert BelowBefore(ts, at, outer, s[i], s[j]);
      } else {
        assert BelowBefore(ts, at, outer, rest[i - |s|], rest[j - |s|]);
      }
    }
  }

  lemma {:induction false} TraceNodeInOrder(ts: seq<Tree>, k: nat, at: seq<nat>, outer: seq<int>, env: Env)
    requires k < |ts| && Forward(env)
    ensures InChild(ts, k, at, outer, TraceNode(ts[k], at + [k], outer, env))
    decreases ts[k], 1, 0
  {
    match ts[k].content {
      case Block(_) =>
        var e := Instance(at + [k], outer);
        assert e.path[|at|..] == [k];
      case Loop(_) =>
        TraceLoopInOrder(ts, k, at, outer, env.values(at + [k], outer), env);
      case If(_, _) =>
        TraceInOrder(ts[k].children, 0, at + [k], outer, env);
        Lifted(ts, k, at, outer, 0, Trace(ts[k].children, 0, at + [k], outer, env));
    }
  }

  /** An ordered run of child k's children is an ordered run inside child k. */
  lemma Lifted(ts: seq<Tree>, k: nat, at: seq<nat>, outer: seq<int>, v: int, s: seq<Instance>)
    requires k < |ts| && !ts[k].content.Block?
    requires InOrder(ts[k].children, 0, at + [k], Inside(ts[k], outer, v), s)
    ensures InChild(ts, k, at, outer, s)
  {
    forall i | 0 <= i < |s|
      ensures Below(ts, k, at, outer, s[i]) && s[i].path[|at|] == k
    {
      StepDown(ts, k, at, outer, v, s[i]);
    }
    forall i, j | 0 <= i < j < |s|
      ensures BelowBefore(ts, at, outer, s[i], s[j])
    {
      StepDownBefore(ts, k, at, outer, v, s[i], s[j]);
    }
  }

  /** A run inside loop k whose iterations are among vs. */
  ghost predicate InLoop(ts: seq<Tree>, k: nat, at: seq<nat>, outer: seq<int>, vs: seq<int>, s: seq<Instance>)
    requires k < |ts|
  {
    && InChild(ts, k, at, outer, s)
    && forall i :: 0 <= i < |s| ==>
         |s[i].iters| > |outer| && s[i].iters[|outer|] in vs
         && Below(ts[k].children, 0, at + [k], outer + [s[i].iters[|outer|]], s[i])
  }

  lemma {:induction false} TraceLoopInOrder(ts: seq<Tree>, k: nat, at: seq<nat>, outer: seq<int>, vs: seq<int>,
                                            env: Env)
    requires k < |ts| && ts[k].content.Loop? && Forward(env) && Increasing(vs)
    ensures InLoop(ts, k, at, outer, vs, TraceLoop(ts[k], at + [k], outer, vs, env))
    decreases ts[k], 0, |vs|
  {
    if vs != [] {
      TraceInOrder(ts[k].children, 0, at + [k], outer + [vs[0]], env);
      TraceLoopInOrder(ts, k, at, outer, vs[1..], env);
      IterationThenRest(ts, k, at, outer, vs, Trace(ts[k].children, 0, at + [k], outer + [vs[0]], env),
                        TraceLoop(ts[k], at + [k], outer, vs[1..], env));
    }
  }

  lemma IterationThenRest(ts: seq<Tree>, k: nat, at: seq<nat>, outer: seq<int>, vs: seq<int>, s: seq<Instance>,
                          rest: seq<Instance>)
    requires k < |ts| && ts[k].content.Loop? && Increasing(vs) && vs != []
    requires InOrder(ts[k].children, 0, at + [k], outer + [vs[0]], s) && InLoop(ts, k, at, outer, vs[1..], rest)
    ensures InLoop(ts, k, at, outer, vs, s + rest)
  {
    var all := s + rest;
    Lifted(ts, k, at, outer, vs[0], s);
    forall i | 0 <= i < |s|
      ensures |s[i].iters| > |outer| && s[i].iters[|outer|] == vs[0]
    {
      StepDown(ts, k, at, outer, vs[0], s[i]);
    }
    forall i, j | 0 <= i < j < |all|
      ensures BelowBefore(ts, at, outer, all[i], all[j])
    {
      if i < |s| <= j {
        var w := rest[j - |s|].iters[|outer|];
        assert vs[0] < w;
        EarlierIteration(ts, k, at, outer, vs[0], w, s[i], rest[j - |s|]);
      } else if j < |s| {
        assert BelowBefore(ts, at, outer, s[i], s[j]);
      } else {
        assert BelowBefore(ts, at, outer, rest[i - |s|], rest[j - |s|]);
      }
    }
  }

  // ---------- Which instances run ----------

  /** Every loop value on the way is one the loop takes, and every branch is taken. */
  ghost predicate Executes(ts: seq<Tree>, p: seq<nat>, u: seq<int>, at: seq<nat>, outer: seq<int>, env: Env)
    requires Address(ts, p) && |u| == Depth(ts, p)
    decreases |p|
  {
    var t, here := ts[p[0]], at + [p[0]];
    if t.content.Loop? then
      u[0] in env.values(here, outer) && Executes(t.children, p[1..], u[1..], here, outer + [u[0]], env)
    else if t.content.If? then
      Taken(t, here, outer, env) && Executes(t.children, p[1..], u, here, outer, env)
    else
      true
  }

  lemma {:induction false} TraceReaches(ts: seq<Tree>, k: nat, p: seq<nat>, u: seq<int>, at: seq<nat>, outer: seq<int>,
                                        env: Env)
    requires Address(ts, p) && |u| == Depth(ts, p) && k <= p[0] && Executes(ts, p, u, at, outer, env)
    ensures Instance(at + p, outer + u) in Trace(ts, k, at, outer, env)
    decreases |p|, 1, p[0] - k
  {
    if k < p[0] {
      TraceReaches(ts, k + 1, p, u, at, outer, env);
    } else {
      NodeReaches(ts, p, u, at, outer, env);
    }
  }

  lemma {:induction false} NodeReaches(ts: seq<Tree>, p: seq<nat>, u: seq<int>, at: seq<nat>, outer: seq<int>, env: Env)
    requires Address(ts, p) && |u| == Depth(ts, p) && Executes(ts, p, u, at, outer, env)
    ensures Instance(at + p, outer + u) in TraceNode(ts[p[0]], at + [p[0]], outer, env)
    decreases |p|, 0, 0
  {
    var t, here := ts[p[0]], at + [p[0]];
    if |p| == 1 {
      assert at + p == here && outer + u == outer;
    } else {
      assert here + p[1..] == at + p;
      if t.content.Loop? {
        assert outer + [u[0]] + u[1..] == outer + u;
        TraceReaches(t.children, 0, p[1..], u[1..], here, outer + [u[0]], env);
        LoopReaches(t, here, outer, env.values(here, outer), u[0], Instance(at + p, outer + u), env);
      } else {
        TraceReaches(t.children, 0, p[1..], u, here, outer, env);
      }
    }
  }

  lemma {:induction false} LoopReaches(t: Tree, at: seq<nat>, outer: seq<int>, vs: seq<int>, v: int, e: Instance,
                                       env: Env)
    requires v in vs && e in Trace(t.children, 0, at, outer + [v], env)
    ensures e in TraceLoop(t, at, outer, vs, env)
    decreases |vs|
  {
    if v != vs[0] {
      assert v in vs[1..];
      LoopReaches(t, at, outer, vs[1..], v, e, env);
    }
  }

  /** Conversely, what occurs in the trace is executed. */
  lemma {:induction false} TraceExecutes(ts: seq<Tree>, k: nat, at: seq<nat>, outer: seq<int>, env: Env, e: Instance)
    requires k <= |ts| && e in Trace(ts, k, at, outer, env)
    ensures Below(ts, k, at, outer, e) && Executes(ts, e.path[|at|..], e.iters[|outer|..], at, outer, env)
    decreases ts, 2, |ts| - k
  {
    if e in TraceNode(ts[k], at + [k], outer, env) {
      NodeExecutes(ts, k, at, outer, env, e);
    } else {
      TraceExecutes(ts, k + 1, at, outer, env, e);
    }
  }

  lemma {:induction false} NodeExecutes(ts: seq<Tree>, k: nat, at: seq<nat>, outer: seq<int>, env: Env, e: Instance)
    requires k < |ts| && e in TraceNode(ts[k], at + [k], outer, env)
    ensures Below(ts, k, at, outer, e) && Executes(ts, e.path[|at|..], e.iters[|outer|..], at, outer, env)
    decreases ts[k], 1, 0
  {
    match ts[k].content {
      case Block(_) =>
        assert e.path[|at|..] == [k];
      case Loop(_) =>
        var vs := env.values(at + [k], outer);
        var v := IterationOf(ts[k], at + [k], outer, vs, env, e);
        TraceExecutes(ts[k].children, 0, at + [k], outer + [v], env, e);
        StepDown(ts, k, at, outer, v, e);
      case If(_, _) =>
        TraceExecutes(ts[k].children, 0, at + [k], outer, env, e);
        StepDown(ts, k, at, outer, 0, e);
        assert e.iters[|outer|..][0..] == e.iters[|outer|..];
    }
  }

  /** The iteration of a loop an instance runs in. */
  lemma {:induction false} IterationOf(t: Tree, at: seq<nat>, outer: seq<int>, vs: seq<int>, env: Env, e: Instance)
    returns (v: int)
    requires e in TraceLoop(t, at, outer, vs, env)
    ensures v in vs && e in Trace(t.children, 0, at, outer + [v], env)
    decreases |vs|
  {
    if e in Trace(t.children, 0, at, outer + [vs[0]], env) {
      v := vs[0];
    } else {
      v := IterationOf(t, at, outer, vs[1..], env, e);
    }
  }

  /** An instance occurs in the run exactly when every branch on its way is taken and every loop takes its value. */
  lemma RunsIff(ts: seq<Tree>, p: seq<nat>, u: seq<int>, env: Env)
    requires Address(ts, p) && |u| == Depth(ts, p)
    ensures Instance(p, u) in WholeRun(ts, env) <==> Executes(ts, p, u, [], [], env)
  {
    var e := Instance(p, u);
    assert p[0..] == p && u[0..] == u && [] + p == p && [] + u == u;
    if Executes(ts, p, u, [], [], env) {
      TraceReaches(ts, 0, p, u, [], [], env);
    }
    if e in WholeRun(ts, env) {
      TraceExecutes(ts, 0, [], [], env, e);
    }
  }

  // ---------- The two arms of an if ----------

  /** p and q part at the then-part and the else-part of one if. */
  ghost predicate OppositeArms(ts: seq<Tree>, p: seq<nat>, q: seq<nat>)
    requires Address(ts, p) && Address(ts, q)
    decreases |p|
  {
    if p[0] == q[0] then
      |p| > 1 && OppositeArms(ts[p[0]].children, p[1..], q[1..])
    else
      ArmsAt(ts, p[0], q[0]) || ArmsAt(ts, q[0], p[0])
  }

  /** Children i and k are the then-part and the else-part of one if. */
  predicate ArmsAt(ts: seq<Tree>, i: nat, k: nat) {
    i + 1 == k < |ts| && IsThen(ts[i]) && IsElse(ts[k])
  }

  lemma {:induction false} OppositeArmsSymmetric(ts: seq<Tree>, p: seq<nat>, q: seq<nat>)
    requires Address(ts, p) && Address(ts, q)
    ensures OppositeArms(ts, p, q) <==> OppositeArms(ts, q, p)
    decreases |p|
  {
    if p[0] == q[0] && |p| > 1 {
      OppositeArmsSymmetric(ts[p[0]].children, p[1..], q[1..]);
    }
  }

  lemma ThenAtNext(at: seq<nat>, k: nat)
    requires k > 0
    ensures ThenAt(at + [k]) == at + [k - 1]
  {
  }

  /** In one iteration of their common loops the two arms never both run. */
  lemma {:induction false} ArmsExclude(ts: seq<Tree>, p: seq<nat>, u: seq<int>, q: seq<nat>, w: seq<int>, at: seq<nat>,
                                       outer: seq<int>, env: Env)
    requires Address(ts, p) && Address(ts, q) && |u| == Depth(ts, p) && |w| == Depth(ts, q)
    requires OppositeArms(ts, p, q)
    requires var c := CommonLoops(ts, p, q); c <= |u| && c <= |w| && u[..c] == w[..c]
    ensures !(Executes(ts, p, u, at, outer, env) && Executes(ts, q, w, at, outer, env))
    decreases |p|
  {
    if p[0] == q[0] {
      var t, here, c := ts[p[0]], at + [p[0]], CommonLoops(ts, p, q);
      if t.content.Loop? {
        assert u[0] == u[..c][0] == w[..c][0] == w[0];
        assert u[..c][1..] == u[1..][..c - 1] && w[..c][1..] == w[1..][..c - 1];
        ArmsExclude(t.children, p[1..], u[1..], q[1..], w[1..], here, outer + [u[0]], env);
      } else {
        ArmsExclude(t.children, p[1..], u, q[1..], w, here, outer, env);
      }
    } else {
      var k := if p[0] < q[0] then q[0] else p[0];
      ThenAtNext(at, k);
    }
  }

  // ---------- A run with two given instances ----------

  /** The instance lies below the address, inside the iterations. */
  ghost predicate Passes(e: Instance, at: seq<nat>, outer: seq<int>) {
    |at| <= |e.path| && e.path[..|at|] == at && |outer| <= |e.iters| && e.iters[..|outer|] == outer
  }

  /** Every loop goes from -n to n, and the conditions on the way to the two instances are as they need them. */
  ghost function EnvFor(n: nat, d: Instance, e: Instance): (env: Env)
    ensures Forward(env)
  {
    Env((at: seq<nat>, outer: seq<int>) => seq(2 * n + 1, (i: int) => i - n),
        (at: seq<nat>, outer: seq<int>) => Passes(d, at, outer) || Passes(e, at, outer))
  }

  ghost predicate WithinReach(u: seq<int>, n: nat) {
    forall i :: 0 <= i < |u| ==> 0 <= u[i] + n <= 2 * n
  }

  /** The path q of the other instance: still to go from here, in this iteration, and never to the other arm. */
  ghost predicate Together(ts: seq<Tree>, p: seq<nat>, u: seq<int>, q: seq<nat>, w: seq<int>) {
    && Address(ts, p) && Address(ts, q) && |u| == Depth(ts, p) && |w| == Depth(ts, q)
    && var c := CommonLoops(ts, p, q);
       c <= |u| && c <= |w| && !(OppositeArms(ts, p, q) && u[..c] == w[..c])
  }

  lemma TogetherBelow(ts: seq<Tree>, p: seq<nat>, u: seq<int>, q: seq<nat>, w: seq<int>)
    requires Together(ts, p, u, q, w) && |p| > 1 && p[0] == q[0]
    ensures var t := ts[p[0]];
            && (t.content.Loop? ==>
                  |u| > 0 && |w| > 0 && (u[0] == w[0] ==> Together(t.children, p[1..], u[1..], q[1..], w[1..])))
            && (t.content.If? ==> Together(t.children, p[1..], u, q[1..], w))
  {
    var t, c := ts[p[0]], CommonLoops(ts, p, q);
    if t.content.Loop? {
      CommonLoopsBound(t.children, p[1..], q[1..]);
      if u[0] == w[0] && u[1..][..c - 1] == w[1..][..c - 1] {
        assert u[..c] == [u[0]] + u[1..][..c - 1] && w[..c] == [w[0]] + w[1..][..c - 1];
      }
    }
  }

  /** What does not lie below an address does not lie deeper either. */
  lemma PassesUp(e: Instance, at: seq<nat>, outer: seq<int>, k: nat, more: seq<int>)
    requires Passes(e, at + [k], outer + more)
    ensures Passes(e, at, outer)
    ensures |at| < |e.path| && e.path[|at|] == k
    ensures more != [] ==> |outer| < |e.iters| && e.iters[|outer|] == more[0]
  {
    assert e.path[..|at|] == e.path[..|at + [k]|][..|at|] == at;
    assert e.path[|at|] == e.path[..|at + [k]|][|at|];
    assert e.iters[..|outer|] == e.iters[..|outer + more|][..|outer|] == outer;
    if more != [] {
      assert e.iters[|outer|] == e.iters[..|outer + more|][|outer|];
    }
  }

  /** The run reaches the first instance unless the other one needs the other arm of an if in the same iteration. */
  lemma {:induction false} EnvExecutes(ts: seq<Tree>, p: seq<nat>, u: seq<int>, at: seq<nat>, outer: seq<int>, n: nat,
                                       d: Instance, e: Instance, env: Env)
    requires Paired(ts) && Address(ts, p) && |u| == Depth(ts, p) && WithinReach(u, n)
    requires env == EnvFor(n, d, e) || env == EnvFor(n, e, d)
    requires d == Instance(at + p, outer + u)
    requires Passes(e, at, outer) ==> Together(ts, p, u, e.path[|at|..], e.iters[|outer|..])
    ensures Executes(ts, p, u, at, outer, env)
    decreases |p|
  {
    if |p| > 1 {
      var t, here := ts[p[0]], at + [p[0]];
      assert at + p == here + p[1..];
      if t.content.Loop? {
        var next := outer + [u[0]];
        assert outer + u == next + u[1..];
        assert env.values(here, outer)[u[0] + n] == u[0];
        if Passes(e, here, next) {
          PassesUp(e, at, outer, p[0], [u[0]]);
          var q, w := e.path[|at|..], e.iters[|outer|..];
          TogetherBelow(ts, p, u, q, w);
          assert e.path[|here|..] == q[1..] && e.iters[|next|..] == w[1..];
        }
        EnvExecutes(t.children, p[1..], u[1..], here, next, n, d, e, env);
      } else {
        if Passes(e, here, outer) {
          assert outer + [] == outer;
          PassesUp(e, at, outer, p[0], []);
          var q, w := e.path[|at|..], e.iters[|outer|..];
          TogetherBelow(ts, p, u, q, w);
          assert e.path[|here|..] == q[1..];
        }
        EnvTakes(ts, p, u, at, outer, n, d, e, env);
        EnvExecutes(t.children, p[1..], u, here, outer, n, d, e, env);
      }
    }
  }

  lemma PassesThrough(e: Instance, at: seq<nat>, outer: seq<int>, k: nat)
    ensures Passes(e, at + [k], outer) ==> Passes(e, at, outer) && |at| < |e.path| && e.path[|at|] == k
  {
    if Passes(e, at + [k], outer) {
      assert outer + [] == outer;
      PassesUp(e, at, outer, k, []);
    }
  }

  lemma EnvTakes(ts: seq<Tree>, p: seq<nat>, u: seq<int>, at: seq<nat>, outer: seq<int>, n: nat, d: Instance,
                 e: Instance, env: Env)
    requires Paired(ts) && Address(ts, p) && |u| == Depth(ts, p) && ts[p[0]].content.If?
    requires env == EnvFor(n, d, e) || env == EnvFor(n, e, d)
    requires d == Instance(at + p, outer + u)
    requires Passes(e, at, outer) ==> Together(ts, p, u, e.path[|at|..], e.iters[|outer|..])
    ensures Taken(ts[p[0]], at + [p[0]], outer, env)
  {
    var t, here := ts[p[0]], at + [p[0]];
    assert Passes(d, here, outer);
    if IsElse(t) {
      assert PairedAt(ts, p[0]);
      ThenAtNext(at, p[0]);
      assert d.path[..|here|] == here != ThenAt(here);
      PassesThrough(e, at, outer, p[0] - 1);
      assert !Passes(e, ThenAt(here), outer);
    }
  }

  // ---------- Positions in the run and the structural order ----------

  lemma {:induction false} RunsBeforeAsymmetric(ts: seq<Tree>, p: seq<nat>, u: seq<int>, q: seq<nat>, w: seq<int>)
    requires Address(ts, p) && Address(ts, q) && |u| == Depth(ts, p) && |w| == Depth(ts, q)
    ensures !(RunsBefore(ts, p, u, q, w) && RunsBefore(ts, q, w, p, u))
    decreases |p|
  {
    if p[0] == q[0] && |p| > 1 {
      if ts[p[0]].content.Loop? {
        if u[0] == w[0] {
          RunsBeforeAsymmetric(ts[p[0]].children, p[1..], u[1..], q[1..], w[1..]);
        }
      } else {
        RunsBeforeAsymmetric(ts[p[0]].children, p[1..], u, q[1..], w);
      }
    }
  }

  lemma Whole(ts: seq<Tree>, e: Instance)
    requires Below(ts, 0, [], [], e)
    ensures Address(ts, e.path) && |e.iters| == Depth(ts, e.path) && e.path[0..] == e.path && e.iters[0..] == e.iters
  {
  }

  /** One instance precedes another in the run exactly when it runs before it structurally. */
  lemma PrecedesIff(ts: seq<Tree>, env: Env, d: Instance, e: Instance)
    requires Forward(env) && d in WholeRun(ts, env) && e in WholeRun(ts, env)
    ensures Address(ts, d.path) && Address(ts, e.path)
    ensures |d.iters| == Depth(ts, d.path) && |e.iters| == Depth(ts, e.path)
    ensures Precedes(WholeRun(ts, env), d, e) <==> RunsBefore(ts, d.path, d.iters, e.path, e.iters)
  {
    var s := WholeRun(ts, env);
    TraceInOrder(ts, 0, [], [], env);
    var i :| 0 <= i < |s| && s[i] == d;
    var j :| 0 <= j < |s| && s[j] == e;
    Whole(ts, d);
    Whole(ts, e);
    RunsBeforeAsymmetric(ts, d.path, d.iters, e.path, e.iters);
    if Precedes(s, d, e) {
      var k, l :| 0 <= k < l < |s| && s[k] == d && s[l] == e;
      assert BelowBefore(ts, [], [], s[k], s[l]);
    }
    assert j < i ==> BelowBefore(ts, [], [], s[j], s[i]);
  }

  // ---------- The order in terms of distances ----------

  /** p comes before q in the text. */
  predicate LexicallyBefore(p: seq<nat>, q: seq<nat>)
    decreases |p|
  {
    p != [] && q != [] && (p[0] < q[0] || (p[0] == q[0] && LexicallyBefore(p[1..], q[1..])))
  }

  /** Number of loops around both statements. */
  ghost function CommonLoops(ts: seq<Tree>, p: seq<nat>, q: seq<nat>): nat
    requires Address(ts, p) && Address(ts, q)
    decreases |p|
  {
    if |p| == 1 || |q| == 1 || p[0] != q[0] then 0
    else LoopCount(ts[p[0]]) + CommonLoops(ts[p[0]].children, p[1..], q[1..])
  }

  lemma {:induction false} CommonLoopsBound(ts: seq<Tree>, p: seq<nat>, q: seq<nat>)
    requires Address(ts, p) && Address(ts, q)
    ensures CommonLoops(ts, p, q) <= Depth(ts, p) && CommonLoops(ts, p, q) <= Depth(ts, q)
    ensures p == q ==> CommonLoops(ts, p, q) == Depth(ts, p)
    decreases |p|
  {
    if |p| > 1 && |q| > 1 && p[0] == q[0] {
      CommonLoopsBound(ts[p[0]].children, p[1..], q[1..]);
    }
  }

  /** Different statements come one before the other in the text. */
  lemma {:induction false} TextOrderTotal(ts: seq<Tree>, p: seq<nat>, q: seq<nat>)
    requires Address(ts, p) && Address(ts, q)
    ensures p != q ==> LexicallyBefore(p, q) != LexicallyBefore(q, p)
    ensures !LexicallyBefore(p, p)
    decreases |p|
  {
    if |p| > 1 {
      var rest := if p[0] == q[0] then q[1..] else p[1..];
      TextOrderTotal(ts[p[0]].children, p[1..], rest);
      assert p == [p[0]] + p[1..];
      assert p[0] == q[0] ==> q == [q[0]] + rest;
    } else {
      assert p[0] == q[0] ==> p == q;
    }
  }

  lemma ConsDifference(a: int, s: seq<int>, b: int, t: seq<int>)
    requires |s| == |t|
    ensures Difference([b] + t, [a] + s) == [b - a] + Difference(t, s)
  {
  }

  /** A positive vector after a zero is positive. */
  lemma LexPositivePrepend(x: int, e: seq<int>)
    requires x > 0 || (x == 0 && LexPositive(e))
    ensures LexPositive([x] + e)
  {
    var d := [x] + e;
    if x > 0 {
      assert PositiveAt(d, 0);
    } else {
      var k: nat :| PositiveAt(e, k);
      assert d[k + 1] == e[k] && forall i :: 0 < i <= k ==> d[i] == e[i - 1];
      assert PositiveAt(d, k + 1);
    }
  }

  /** A positive vector starts with a positive number, or with zero before a positive rest. */
  lemma LexPositiveHead(x: int, e: seq<int>)
    requires LexPositive([x] + e)
    ensures x > 0 || (x == 0 && LexPositive(e))
  {
    var d := [x] + e;
    var k: nat :| PositiveAt(d, k);
    if k > 0 {
      assert d[0] == 0 && e[k - 1] == d[k];
      assert forall i :: 0 <= i < k - 1 ==> e[i] == d[i + 1];
      assert PositiveAt(e, k - 1);
    }
  }

  lemma LexBeforeCons(a: int, s: seq<int>, b: int, t: seq<int>)
    requires |s| == |t|
    ensures LexBefore([a] + s, [b] + t) <==> a < b || (a == b && LexBefore(s, t))
  {
    ConsDifference(a, s, b, t);
    if LexBefore([a] + s, [b] + t) {
      LexPositiveHead(b - a, Difference(t, s));
    }
    if a < b || (a == b && LexBefore(s, t)) {
      LexPositivePrepend(b - a, Difference(t, s));
    }
  }

  lemma LexBeforeEmpty()
    ensures !LexBefore([], [])
  {
  }

  /** The first component decides before the rest of a prefix. */
  lemma LexBeforePrefix(u: seq<int>, w: seq<int>, c: nat)
    requires 0 < c <= |u| && c <= |w|
    ensures LexBefore(u[..c], w[..c]) <==> u[0] < w[0] || (u[0] == w[0] && LexBefore(u[1..][..c - 1], w[1..][..c - 1]))
    ensures u[..c] == w[..c] <==> u[0] == w[0] && u[1..][..c - 1] == w[1..][..c - 1]
  {
    assert u[..c] == [u[0]] + u[1..][..c - 1] && w[..c] == [w[0]] + w[1..][..c - 1];
    LexBeforeCons(u[0], u[1..][..c - 1], w[0], w[1..][..c - 1]);
    assert u[..c][1..] == u[1..][..c - 1] && w[..c][1..] == w[1..][..c - 1];
  }

  /** The iterations of the common loops decide, and the text breaks ties. */
  lemma {:induction false} RunsBeforeIff(ts: seq<Tree>, p: seq<nat>, u: seq<int>, q: seq<nat>, w: seq<int>)
    requires Address(ts, p) && Address(ts, q) && |u| == Depth(ts, p) && |w| == Depth(ts, q)
    ensures var c := CommonLoops(ts, p, q);
            && c <= |u| && c <= |w|
            && (RunsBefore(ts, p, u, q, w) <==>
              LexBefore(u[..c], w[..c]) || (u[..c] == w[..c] && LexicallyBefore(p, q)))
    decreases |p|
  {
    CommonLoopsBound(ts, p, q);
    var c := CommonLoops(ts, p, q);
    if |p| == 1 || |q| == 1 || p[0] != q[0] {
      LexBeforeEmpty();
      assert u[..0] == w[..0] == [];
    } else if ts[p[0]].content.Loop? {
      RunsBeforeIff(ts[p[0]].children, p[1..], u[1..], q[1..], w[1..]);
      LexBeforePrefix(u, w, c);
    } else {
      RunsBeforeIff(ts[p[0]].children, p[1..], u, q[1..], w);
    }
  }
}
