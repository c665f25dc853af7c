/**
 What build_ir_tree makes of a list of statements, said about the list alone: the cut
 into controls is unique, straight code is one leaf, and the counter numbers the ifs
 one after the other. What the two later passes over the payloads leave alone.
 */
module TreeLaws {
  import opened Lists
  import opened SourceTrees
  import opened TreeOrder
  import opened Schedule

  // ---------- Cutting a list of statements ----------

  /** The statements a control stands for. */
  function Items(c: Control): (items: seq<Ast>)
  {
    match c
    case Block(s) => s
    case Loop(b) => [For(b)]
    case If(t, e) => [IfStmt(t, e)]
  }

  predicate NoControls(s: seq<Ast>) {
    forall k :: 0 <= k < |s| ==> !s[k].For? && !s[k].IfStmt?
  }

  /** No two blocks are neighbours, and a block is a non-empty run without loops and ifs. */
  predicate BlocksApart(cs: seq<Control>) {
    && (forall k :: 0 <= k < |cs| && cs[k].Block? ==> cs[k].statements != [] && NoControls(cs[k].statements))
    && forall k :: 0 < k < |cs| ==> !(cs[k - 1].Block? && cs[k].Block?)
  }

  /** The controls are the statements in order: every loop and if by itself, everything between them in one block. */
  predicate IsCut(cs: seq<Control>, statements: seq<Ast>) {
    Flatten(cs, Items) == statements && BlocksApart(cs)
  }

  /** The open block has no loops and ifs, and no block comes before it. */
  predicate RunOpen(s: Scanned) {
    && BlocksApart(s.controls) && NoControls(s.run)
    && (s.controls != [] ==> !s.controls[|s.controls| - 1].Block?)
  }

  lemma PushBlock(s: Scanned)
    requires RunOpen(s) && s.run != []
    ensures BlocksApart(s.controls + [Block(s.run)])
  {
  }

  lemma PushBranch(cs: seq<Control>, c: Control)
    requires BlocksApart(cs) && !c.Block?
    ensures BlocksApart(cs + [c]) && !(cs + [c])[|cs|].Block?
  {
  }

  lemma RunStaysOpen(s: Scanned, a: Ast)
    requires RunOpen(s)
    ensures RunOpen(s.Next(a))
  {
    if IsControl(a) {
      if s.run == [] {
        assert s.controls + [] == s.controls;
        PushBranch(s.controls, ControlOf(a));
      } else {
        PushBlock(s);
        PushBranch(s.controls + [Block(s.run)], ControlOf(a));
      }
    }
  }

  lemma PushItems(s: Scanned, c: Control)
    ensures Flatten(s.Push(c).controls, Items) == Flatten(s.controls, Items) + s.run + Items(c)
  {
    if s.run != [] {
      FlattenPush(s.controls, Block(s.run), Items);
      FlattenPush(s.controls + [Block(s.run)], c, Items);
    } else {
      assert s.controls + [] == s.controls;
      FlattenPush(s.controls, c, Items);
    }
  }

  lemma NextItems(s: Scanned, a: Ast, before: seq<Ast>)
    requires Flatten(s.controls, Items) + s.run == before
    ensures Flatten(s.Next(a).controls, Items) + s.Next(a).run == before + [a]
  {
    if IsControl(a) {
      PushItems(s, ControlOf(a));
      assert before + [a] + [] == before + [a];
    } else {
      AppendAssociates(Flatten(s.controls, Items), s.run, [a]);
    }
  }

  lemma {:induction false} ScanCuts(children: seq<Ast>, k: nat)
    requires k <= |children|
    ensures RunOpen(Scan(children, k))
    ensures Flatten(Scan(children, k).controls, Items) + Scan(children, k).run == children[..k]
  {
    if k > 0 {
      ScanCuts(children, k - 1);
      RunStaysOpen(Scan(children, k - 1), children[k - 1]);
      NextItems(Scan(children, k - 1), children[k - 1], children[..k - 1]);
      PrefixNext(children, k);
    }
  }

  /** The controls of a list of statements; unwrapped if it is the body of a compound or a function. */
  predicate Cuts(controls: seq<Control>, children: seq<Ast>, unwrapped: bool) {
    if children == [] || (NoControls(children) && !unwrapped) then controls == [] else IsCut(controls, children)
  }

  lemma MiddleElement<T>(xs: seq<T>, x: T, ys: seq<T>, all: seq<T>)
    requires (xs + [x]) + ys == all
    ensures |xs| < |all| && all[|xs|] == x && |ys| < |all|
  {
  }

  /** A control that was pushed is there because of a loop or an if. */
  lemma PushedControl(s: Scanned, children: seq<Ast>)
    requires RunOpen(s) && Flatten(s.controls, Items) + s.run == children && s.controls != []
    ensures |s.run| < |children| && !NoControls(children)
  {
    var last := |s.controls| - 1;
    var front, c := s.controls[..last], s.controls[last];
    assert s.controls == front + [c];
    FlattenPush(front, c, Items);
    MiddleElement(Flatten(front, Items), Items(c)[0], s.run, children);
  }

  lemma ClosedCuts(s: Scanned, children: seq<Ast>, unwrapped: bool, controls: seq<Control>)
    requires RunOpen(s) && Flatten(s.controls, Items) + s.run == children
    requires controls ==
             if s.run != [] && (unwrapped || |s.run| != |children|) then s.controls + [Block(s.run)] else s.controls
    ensures Cuts(controls, children, unwrapped)
  {
    if s.controls == [] {
      assert [] + s.run == s.run;
    } else {
      PushedControl(s, children);
    }
    if s.run != [] {
      PushBlock(s);
      FlattenPush(s.controls, Block(s.run), Items);
    } else {
      assert Flatten(s.controls, Items) + [] == Flatten(s.controls, Items);
    }
  }

  /**
   One level of control structure: the body of a single compound or function, or else
   the list itself, is cut; a list without loops and ifs is left alone.
   */
  lemma OneLevelCuts(stmts: seq<Ast>)
    ensures if |stmts| == 1 && (stmts[0].Compound? || stmts[0].FunctionDecl?) then
              Cuts(OneLevel(stmts), stmts[0].children, true)
            else
              Cuts(OneLevel(stmts), stmts, false)
  {
    var children := ChildList(stmts);
    if |stmts| == 1 && stmts[0].For? {
      FlattenOne(Loop(stmts[0].body), Items);
      assert stmts == [stmts[0]];
    } else {
      ScanCuts(children, |children|);
      WholePrefix(children);
      ClosedCuts(Scan(children, |children|), children, Unwraps(stmts), OneLevel(stmts));
    }
  }

  // ---------- One cut ----------

  lemma LastItems(cs: seq<Control>)
    requires cs != []
    ensures Flatten(cs, Items) == Flatten(cs[..|cs| - 1], Items) + Items(cs[|cs| - 1])
  {
  }

  /** A control is no block exactly when the last of its statements is a loop or an if. */
  lemma LastItem(cs: seq<Control>)
    requires cs != [] && BlocksApart(cs)
    ensures var c, all := cs[|cs| - 1], Flatten(cs, Items);
            && all != [] && (c.Block? <==> !all[|all| - 1].For? && !all[|all| - 1].IfStmt?)
            && (!c.Block? ==> Items(c) == [all[|all| - 1]])
  {
    LastItems(cs);
    var c := cs[|cs| - 1];
    if c.Block? {
      assert c.statements != [] && NoControls(c.statements);
    }
  }

  lemma FrontApart(cs: seq<Control>)
    requires cs != [] && BlocksApart(cs)
    ensures BlocksApart(cs[..|cs| - 1])
  {
  }

  lemma NothingToCut(cs: seq<Control>)
    requires BlocksApart(cs) && Flatten(cs, Items) == []
    ensures cs == []
  {
    if cs != [] {
      LastItem(cs);
    }
  }

  /** Of two ways to split a list, the longer tail begins inside the other front. */
  lemma LongerTail<T>(head: seq<T>, s: seq<T>, front: seq<T>, t: seq<T>)
    requires head + s == front + t && |s| > |t|
    ensures front != [] && front[|front| - 1] == s[|s| - 1 - |t|]
  {
    var all := head + s;
    assert all[|front| - 1] == s[|front| - 1 - |head|];
    assert (front + t)[|front| - 1] == front[|front| - 1];
  }

  lemma SameTail<T>(head: seq<T>, s: seq<T>, front: seq<T>, t: seq<T>)
    requires head + s == front + t && |s| == |t|
    ensures s == t
  {
    assert s == (head + s)[|head|..] && t == (front + t)[|front|..];
  }

  predicate EndsInControl(s: seq<Ast>) {
    s == [] || s[|s| - 1].For? || s[|s| - 1].IfStmt?
  }

  /** A tail without loops and ifs, behind nothing or a loop or an if, is where it is. */
  lemma SameRun(head: seq<Ast>, s: seq<Ast>, front: seq<Ast>, t: seq<Ast>)
    requires head + s == front + t && NoControls(s) && NoControls(t) && EndsInControl(head) && EndsInControl(front)
    ensures s == t
  {
    if |s| > |t| {
      LongerTail(head, s, front, t);
    }
    if |t| > |s| {
      LongerTail(front, t, head, s);
    }
    SameTail(head, s, front, t);
  }

  /** Before a last block there is nothing, or a loop or an if. */
  lemma BeforeBlock(cs: seq<Control>)
    requires cs != [] && BlocksApart(cs) && cs[|cs| - 1].Block?
    ensures EndsInControl(Flatten(cs[..|cs| - 1], Items)) && NoControls(cs[|cs| - 1].statements)
  {
    var rest := cs[..|cs| - 1];
    FrontApart(cs);
    if rest != [] {
      LastItem(rest);
    }
  }

  lemma SameItems(c: Control, d: Control)
    requires Items(c) == Items(d) && (c.Block? <==> d.Block?)
    ensures c == d
  {
  }

  lemma SamePrefix<T>(xs: seq<T>, ys: seq<T>, last: seq<T>)
    requires xs + last == ys + last
    ensures xs == ys
  {
    assert |xs| == |ys|;
    assert xs == (xs + last)[..|xs|] && ys == (ys + last)[..|ys|];
  }

  lemma SameLast(cs: seq<Control>, ds: seq<Control>, statements: seq<Ast>)
    requires IsCut(cs, statements) && IsCut(ds, statements) && cs != [] && ds != []
    ensures cs[|cs| - 1] == ds[|ds| - 1]
  {
    var c, d := cs[|cs| - 1], ds[|ds| - 1];
    LastItem(cs);
    LastItem(ds);
    LastItems(cs);
    LastItems(ds);
    if c.Block? {
      BeforeBlock(cs);
      BeforeBlock(ds);
      SameRun(Flatten(cs[..|cs| - 1], Items), c.statements, Flatten(ds[..|ds| - 1], Items), d.statements);
    }
    SameItems(c, d);
  }

  /** There is one way to cut a list. */
  lemma {:induction false} CutIsUnique(cs: seq<Control>, ds: seq<Control>, statements: seq<Ast>)
    requires IsCut(cs, statements) && IsCut(ds, statements)
    ensures cs == ds
  {
    if cs == [] || ds == [] {
      NothingToCut(cs);
      NothingToCut(ds);
    } else {
      SameLast(cs, ds, statements);
      LastItems(cs);
      LastItems(ds);
      FrontApart(cs);
      FrontApart(ds);
      SamePrefix(Flatten(cs[..|cs| - 1], Items), Flatten(ds[..|ds| - 1], Items), Items(cs[|cs| - 1]));
      CutIsUnique(cs[..|cs| - 1], ds[..|ds| - 1], Flatten(cs[..|cs| - 1], Items));
      assert cs == cs[..|cs| - 1] + [cs[|cs| - 1]] && ds == ds[..|ds| - 1] + [ds[|ds| - 1]];
    }
  }

  // ---------- Straight code ----------

  /** The list inside single compounds and function bodies. */
  function Innermost(stmts: seq<Ast>): seq<Ast>
    decreases Sizes(stmts)
  {
    if |stmts| == 1 && (stmts[0].Compound? || stmts[0].FunctionDecl?) && stmts[0].children != [] then
      SizesPrefix(stmts, 1);
      assert stmts[..1] == stmts;
      Innermost(stmts[0].children)
    else
      stmts
  }

  lemma InnermostControls(stmts: seq<Ast>)
    requires NoControls(Innermost(stmts))
    ensures NoControls(stmts)
  {
  }

  lemma CutOfStraight(stmts: seq<Ast>, cs: seq<Control>)
    requires NoControls(stmts) && stmts != [] && IsCut(cs, stmts)
    ensures cs == [Block(stmts)]
  {
    assert IsCut([Block(stmts)], stmts) by {
      FlattenOne(Block(stmts), Items);
    }
    CutIsUnique(cs, [Block(stmts)], stmts);
  }

  lemma NothingBelow(stmts: seq<Ast>)
    requires !(|stmts| == 1 && (stmts[0].Compound? || stmts[0].FunctionDecl?) && stmts[0].children != [])
    requires NoControls(stmts)
    ensures OneLevel(stmts) == []
  {
    OneLevelCuts(stmts);
  }

  lemma SingleBlock(stmts: seq<Ast>, s: seq<Ast>, counter: int)
    requires OneLevel(stmts) == [Block(s)]
    ensures BlockForest(stmts, counter) == BlockForest(s, counter)
  {
    var b := ControlForest(Block(s), counter);
    assert FirstControls(stmts, 0, counter) == Built([], counter);
    assert FirstControls(stmts, 1, counter) == Built([], counter).Then(b);
    assert [] + b.trees == b.trees;
  }

  /** Straight code, in compounds or not, becomes one leaf. */
  lemma {:induction false} StraightIsOneLeaf(stmts: seq<Ast>, counter: int)
    requires NoControls(Innermost(stmts))
    ensures BlockForest(stmts, counter) == Built([Tree(Block(Innermost(stmts)), -1, [])], counter)
    decreases Sizes(stmts)
  {
    if |stmts| == 1 && (stmts[0].Compound? || stmts[0].FunctionDecl?) && stmts[0].children != [] {
      var children := stmts[0].children;
      ChildrenSmaller(stmts);
      InnermostControls(children);
      OneLevelCuts(stmts);
      CutOfStraight(children, OneLevel(stmts));
      SingleBlock(stmts, children, counter);
      StraightIsOneLeaf(children, counter);
    } else {
      NothingBelow(stmts);
    }
  }

  // ---------- The whole tree ----------

  /** The lists of nodes of several controls, one after the other. */
  function Joined(parts: seq<seq<Tree>>): seq<Tree> {
    Flatten(parts, (ts: seq<Tree>) => ts)
  }

  /** The trees of a list: a leaf if it is straight, otherwise the nodes of its cut in order. */
  ghost predicate ForestOf(ts: seq<Tree>, stmts: seq<Ast>)
    decreases Sizes(stmts), 1
  {
    var inner := Innermost(stmts);
    if NoControls(inner) then
      ts == [Tree(Block(inner), -1, [])]
    else
      exists cs, parts :: IsCut(cs, inner) && CutForest(ts, cs, parts, Sizes(stmts))
  }

  /** ts are the nodes of the controls cs, parts[k] those of cs[k]; all controls are smaller than size. */
  ghost predicate CutForest(ts: seq<Tree>, cs: seq<Control>, parts: seq<seq<Tree>>, size: nat)
    decreases size, 0
  {
    && |parts| == |cs| && ts == Joined(parts)
    && forall k :: 0 <= k < |cs| ==> ControlSize(cs[k]) < size && NodesOf(parts[k], cs[k])
  }

  /** A loop is one node, an if one for each of its parts, a block what it is made of. */
  ghost predicate NodesOf(ts: seq<Tree>, c: Control)
    decreases ControlSize(c), 2
  {
    match c
    case Block(s) => ForestOf(ts, s)
    case Loop(b) => |ts| == 1 && ts[0].content == c && ts[0].payload == -1 && ForestOf(ts[0].children, Pointee(b))
    case If(t, e) =>
      && |ts| == (if e.Some? then 2 else 1) && ts[0].content == c && ForestOf(ts[0].children, Pointee(t))
      && (e.Some? ==> ts[1].content == c && ForestOf(ts[1].children, Pointee(e)))
  }

  lemma JoinedPush(parts: seq<seq<Tree>>, ts: seq<Tree>)
    ensures Joined(parts + [ts]) == Joined(parts) + ts
  {
    FlattenPush(parts, ts, (x: seq<Tree>) => x);
  }

  lemma CutForestPush(ts: seq<Tree>, cs: seq<Control>, parts: seq<seq<Tree>>, size: nat, part: seq<Tree>, c: Control)
    requires CutForest(ts, cs, parts, size) && ControlSize(c) < size && NodesOf(part, c)
    ensures CutForest(ts + part, cs + [c], parts + [part], size)
  {
    JoinedPush(parts, part);
  }

  lemma {:induction false} FirstControlsForest(stmts: seq<Ast>, k: nat, counter: int) returns (parts: seq<seq<Tree>>)
    requires k <= |OneLevel(stmts)|
    ensures CutForest(FirstControls(stmts, k, counter).trees, OneLevel(stmts)[..k], parts, Sizes(stmts))
    decreases Sizes(stmts), 0, k
  {
    if k == 0 {
      parts := [];
    } else {
      var b, c := FirstControls(stmts, k - 1, counter), OneLevel(stmts)[k - 1];
      parts := FirstControlsForest(stmts, k - 1, counter);
      ControlShrinks(stmts, k - 1);
      ControlForestNodes(c, b.counter);
      var part := ControlForest(c, b.counter).trees;
      CutForestPush(b.trees, OneLevel(stmts)[..k - 1], parts, Sizes(stmts), part, c);
      PrefixNext(OneLevel(stmts), k);
      parts := parts + [part];
    }
  }

  lemma {:induction false} ControlForestNodes(c: Control, counter: int)
    ensures NodesOf(ControlForest(c, counter).trees, c)
    decreases ControlSize(c), 3, 0
  {
    match c {
      case Block(s) => BlockForestIs(s, counter);
      case Loop(b) => BlockForestIs(Pointee(b), counter);
      case If(t, e) =>
        BlockForestIs(Pointee(t), counter);
        if e.Some? {
          BlockForestIs(Pointee(e), BlockForest(Pointee(t), counter).counter);
        }
    }
  }

  lemma ChildrenSmaller(stmts: seq<Ast>)
    requires |stmts| == 1 && (stmts[0].Compound? || stmts[0].FunctionDecl?)
    ensures Sizes(stmts[0].children) < Sizes(stmts)
  {
    SizesPrefix(stmts, 1);
    assert stmts[..1] == stmts;
  }

  /** A list that is one compound or function body with something in it. */
  predicate Wraps(stmts: seq<Ast>) {
    |stmts| == 1 && (stmts[0].Compound? || stmts[0].FunctionDecl?) && stmts[0].children != []
  }

  lemma WrappedForest(stmts: seq<Ast>, counter: int)
    requires Wraps(stmts) && NoControls(stmts[0].children) && Sizes(stmts[0].children) < Sizes(stmts)
    requires ForestOf(BlockForest(stmts[0].children, counter).trees, stmts[0].children)
    ensures ForestOf(BlockForest(stmts, counter).trees, stmts)
  {
    var children := stmts[0].children;
    OneLevelCuts(stmts);
    CutOfStraight(children, OneLevel(stmts));
    SingleBlock(stmts, children, counter);
    SameForest(BlockForest(children, counter).trees, children, stmts);
  }

  lemma NothingCut(s: seq<Ast>)
    requires !NoControls(s)
    ensures !IsCut([], s)
  {
  }

  lemma CutIsInnermost(stmts: seq<Ast>)
    requires !NoControls(Innermost(stmts)) && (Wraps(stmts) ==> !NoControls(stmts[0].children))
    ensures IsCut(OneLevel(stmts), Innermost(stmts)) && OneLevel(stmts) != []
  {
    OneLevelCuts(stmts);
    NothingCut(Innermost(stmts));
  }

  lemma CutIsForest(stmts: seq<Ast>, ts: seq<Tree>, cs: seq<Control>, parts: seq<seq<Tree>>)
    requires !NoControls(Innermost(stmts)) && IsCut(cs, Innermost(stmts)) && CutForest(ts, cs, parts, Sizes(stmts))
    ensures ForestOf(ts, stmts)
  {
  }

  lemma ForestOfCut(stmts: seq<Ast>, counter: int, parts: seq<seq<Tree>>)
    requires !NoControls(Innermost(stmts)) && (Wraps(stmts) ==> !NoControls(stmts[0].children))
    requires CutForest(FirstControls(stmts, |OneLevel(stmts)|, counter).trees, OneLevel(stmts), parts, Sizes(stmts))
    ensures ForestOf(BlockForest(stmts, counter).trees, stmts)
  {
    CutIsInnermost(stmts);
    CutIsForest(stmts, BlockForest(stmts, counter).trees, OneLevel(stmts), parts);
  }

  /** build_ir_tree makes exactly the trees the cuts describe. */
  lemma {:induction false} BlockForestIs(stmts: seq<Ast>, counter: int)
    ensures ForestOf(BlockForest(stmts, counter).trees, stmts)
    decreases Sizes(stmts), 2, 0
  {
    if NoControls(Innermost(stmts)) {
      StraightIsOneLeaf(stmts, counter);
    } else if Wraps(stmts) && NoControls(stmts[0].children) {
      ChildrenSmaller(stmts);
      BlockForestIs(stmts[0].children, counter);
      WrappedForest(stmts, counter);
    } else {
      var parts := FirstControlsForest(stmts, |OneLevel(stmts)|, counter);
      WholePrefix(OneLevel(stmts));
      ForestOfCut(stmts, counter, parts);
    }
  }

  lemma SameForest(ts: seq<Tree>, children: seq<Ast>, stmts: seq<Ast>)
    requires ForestOf(ts, children) && Innermost(stmts) == Innermost(children) && Sizes(children) < Sizes(stmts)
    ensures ForestOf(ts, stmts)
  {
    var inner := Innermost(stmts);
    if !NoControls(inner) {
      var cs, parts :| IsCut(cs, inner) && CutForest(ts, cs, parts, Sizes(children));
      assert CutForest(ts, cs, parts, Sizes(stmts));
    }
  }

  // ---------- The numbers of the ifs ----------

  /** Then-parts in a forest: one for each if. */
  function Thens(ts: seq<Tree>): nat
    decreases ts
  {
    if ts == [] then 0 else Thens(ts[..|ts| - 1]) + ThensIn(ts[|ts| - 1])
  }

  function ThensIn(t: Tree): nat
    decreases t
  {
    (if IsThen(t) then 1 else 0) + Thens(t.children)
  }

  lemma {:induction false} ThensAppend(ss: seq<Tree>, ts: seq<Tree>)
    ensures Thens(ss + ts) == Thens(ss) + Thens(ts)
    decreases |ts|
  {
    if ts == [] {
      assert ss + ts == ss;
    } else {
      ThensAppend(ss, ts[..|ts| - 1]);
      AppendLast(ss, ts);
      assert (ss + ts)[..|ss + ts| - 1] == ss + ts[..|ts| - 1];
    }
  }

  lemma ThensOfOne(t: Tree)
    ensures Thens([t]) == ThensIn(t)
  {
    assert [t][..0] == [];
  }

  /** The counter is even and has gone up by two for each if of the forest. */
  predicate Counts(b: Built, counter: int) {
    counter % 2 == 0 == b.counter % 2 && b.counter == counter + 2 * Thens(b.trees)
  }

  lemma CountsThen(b: Built, d: Built, counter: int)
    requires Counts(b, counter) && Counts(d, b.counter)
    ensures Counts(b.Then(d), counter)
  {
    ThensAppend(b.trees, d.trees);
  }

  lemma IfCounts(c: Control, thens: Built, counter: int)
    requires c.If? && Counts(thens, counter)
    ensures Counts(IfForest(c, thens), counter)
  {
    ThensOfOne(IfForest(c, thens).trees[0]);
  }

  lemma IfElseCounts(c: Control, thens: Built, elses: Built, counter: int)
    requires c.If? && Counts(thens, counter) && Counts(elses, thens.counter)
    ensures Counts(IfElseForest(c, thens, elses), counter)
  {
    var f := IfElseForest(c, thens, elses).trees;
    ThensOfOne(f[0]);
    ThensOfOne(f[1]);
    ThensAppend([f[0]], [f[1]]);
    assert f == [f[0]] + [f[1]];
  }

  lemma LoopCounts(c: Control, body: Built, counter: int)
    requires c.Loop? && Counts(body, counter)
    ensures Counts(LoopForest(c, body), counter)
  {
    ThensOfOne(LoopForest(c, body).trees[0]);
  }

  lemma {:induction false} BlockForestCounts(stmts: seq<Ast>, counter: int)
    requires counter % 2 == 0
    ensures Counts(BlockForest(stmts, counter), counter)
    decreases Sizes(stmts), 1, 0
  {
    if OneLevel(stmts) == [] {
      ThensOfOne(Tree(Block(stmts), -1, []));
    } else {
      FirstControlsCount(stmts, |OneLevel(stmts)|, counter);
    }
  }

  lemma NextCounts(stmts: seq<Ast>, k: nat, counter: int, b: Built, c: Control)
    requires 0 < k <= |OneLevel(stmts)| && b == FirstControls(stmts, k - 1, counter) && c == OneLevel(stmts)[k - 1]
    requires Counts(b, counter) && Counts(ControlForest(c, b.counter), b.counter)
    ensures Counts(FirstControls(stmts, k, counter), counter)
  {
    CountsThen(b, ControlForest(c, b.counter), counter);
  }

  lemma {:induction false} FirstControlsCount(stmts: seq<Ast>, k: nat, counter: int)
    requires k <= |OneLevel(stmts)| && counter % 2 == 0
    ensures Counts(FirstControls(stmts, k, counter), counter)
    decreases Sizes(stmts), 0, k
  {
    if k > 0 {
      var b, c := FirstControls(stmts, k - 1, counter), OneLevel(stmts)[k - 1];
      FirstControlsCount(stmts, k - 1, counter);
      ControlShrinks(stmts, k - 1);
      ControlForestCounts(c, b.counter);
      NextCounts(stmts, k, counter, b, c);
    }
  }

  lemma {:induction false} ControlForestCounts(c: Control, counter: int)
    requires counter % 2 == 0
    ensures Counts(ControlForest(c, counter), counter)
    decreases ControlSize(c), 2, 0
  {
    match c {
      case Block(s) => BlockForestCounts(s, counter);
      case Loop(b) =>
        BlockForestCounts(Pointee(b), counter);
        LoopCounts(c, BlockForest(Pointee(b), counter), counter);
      case If(t, e) =>
        var thens := BlockForest(Pointee(t), counter);
        BlockForestCounts(Pointee(t), counter);
        if e.Some? {
          BlockForestCounts(Pointee(e), thens.counter);
          IfElseCounts(c, thens, BlockForest(Pointee(e), thens.counter), counter);
        } else {
          IfCounts(c, thens, counter);
        }
    }
  }

  /**
   An if is numbered when its then-part is built: one more than the counter after the ifs
   inside it; the else-part has the counter after the ifs inside both, and then the if
   itself is counted.
   */
  lemma IfNumbers(c: Control, counter: int)
    requires c.If? && counter % 2 == 0
    ensures var b := ControlForest(c, counter);
            && |b.trees| == (if c.elsePart.Some? then 2 else 1) && b.counter == counter + 2 * Thens(b.trees)
            && b.trees[0].content == c && b.trees[0].payload == counter + 2 * Thens(b.trees[0].children) + 1
            && (c.elsePart.Some? ==>
                  && b.trees[1].content == c
                  && b.trees[1].payload ==
                     counter + 2 * Thens(b.trees[0].children) + 2 * Thens(b.trees[1].children))
  {
    ControlForestCounts(c, counter);
    var thens := BlockForest(Pointee(c.thenPart), counter);
    BlockForestCounts(Pointee(c.thenPart), counter);
    if c.elsePart.Some? {
      BlockForestCounts(Pointee(c.elsePart), thens.counter);
    }
  }

  // ---------- The statements that are extracted ----------

  ghost function StatementAt(ts: seq<Tree>, p: seq<nat>): Control
    requires Address(ts, p)
    decreases |p|
  {
    if |p| == 1 then ts[p[0]].content else StatementAt(ts[p[0]].children, p[1..])
  }

  /** paths lead to nodes that hold blocks. */
  ghost predicate Located(ts: seq<Tree>, paths: seq<seq<nat>>, blocks: seq<Control>) {
    && |paths| == |blocks|
    && forall k :: 0 <= k < |paths| ==> Address(ts, paths[k]) && StatementAt(ts, paths[k]) == blocks[k]
  }

  predicate InTextOrder(paths: seq<seq<nat>>) {
    forall j, k :: 0 <= j < k < |paths| ==> LexicallyBefore(paths[j], paths[k])
  }

  /** paths are the block nodes of the forest, each once, in the order of the text, and blocks what they hold. */
  ghost predicate ListsBlocks(ts: seq<Tree>, paths: seq<seq<nat>>, blocks: seq<Control>) {
    Located(ts, paths, blocks) && InTextOrder(paths) && forall p :: Address(ts, p) ==> p in paths
  }

  /** The same for the block nodes at and below the node at n. */
  ghost predicate OwnBlocks(ts: seq<Tree>, n: nat, paths: seq<seq<nat>>, blocks: seq<Control>) {
    && Located(ts, paths, blocks) && InTextOrder(paths) && (forall k :: 0 <= k < |paths| ==> paths[k][0] == n)
    && forall p :: Address(ts, p) && p[0] == n ==> p in paths
  }

  lemma LongerForest(front: seq<Tree>, ts: seq<Tree>, t: Tree, p: seq<nat>)
    requires ts == front + [t]
    ensures Address(front, p) <==> Address(ts, p) && p[0] < |front|
    ensures Address(front, p) ==> StatementAt(ts, p) == StatementAt(front, p)
  {
    if p != [] && p[0] < |front| {
      assert ts[p[0]] == front[p[0]];
    }
  }

  lemma LocatedLonger(front: seq<Tree>, ts: seq<Tree>, t: Tree, paths: seq<seq<nat>>, blocks: seq<Control>)
    requires ts == front + [t] && Located(front, paths, blocks)
    ensures Located(ts, paths, blocks) && forall k :: 0 <= k < |paths| ==> paths[k][0] < |front|
  {
    forall k | 0 <= k < |paths|
      ensures Address(ts, paths[k]) && StatementAt(ts, paths[k]) == blocks[k] && paths[k][0] < |front|
    {
      LongerForest(front, ts, t, paths[k]);
    }
  }

  lemma LocatedTogether(ts: seq<Tree>, paths: seq<seq<nat>>, blocks: seq<Control>, own: seq<seq<nat>>,
                        more: seq<Control>)
    requires Located(ts, paths, blocks) && Located(ts, own, more)
    ensures Located(ts, paths + own, blocks + more)
  {
  }

  lemma OrderedTogether(paths: seq<seq<nat>>, own: seq<seq<nat>>, n: nat)
    requires InTextOrder(paths) && InTextOrder(own)
    requires forall k :: 0 <= k < |paths| ==> paths[k] != [] && paths[k][0] < n
    requires forall k :: 0 <= k < |own| ==> own[k] != [] && own[k][0] == n
    ensures InTextOrder(paths + own)
  {
  }

  lemma ListsTogether(front: seq<Tree>, ts: seq<Tree>, t: Tree, paths: seq<seq<nat>>, blocks: seq<Control>,
                      own: seq<seq<nat>>, more: seq<Control>)
    requires ts == front + [t] && ListsBlocks(front, paths, blocks) && OwnBlocks(ts, |front|, own, more)
    ensures ListsBlocks(ts, paths + own, blocks + more)
  {
    LocatedLonger(front, ts, t, paths, blocks);
    LocatedTogether(ts, paths, blocks, own, more);
    OrderedTogether(paths, own, |front|);
    forall p | Address(ts, p)
      ensures p in paths + own
    {
      LongerForest(front, ts, t, p);
      assert p in paths || p in own;
    }
  }

  lemma LeafBlocks(ts: seq<Tree>, n: nat)
    requires n < |ts| && ts[n].content.Block?
    ensures OwnBlocks(ts, n, [[n]], [ts[n].content])
  {
    forall p | Address(ts, p) && p[0] == n
      ensures p == [n]
    {
    }
  }

  lemma InnerBlocks(ts: seq<Tree>, n: nat, sub: seq<seq<nat>>, blocks: seq<Control>) returns (own: seq<seq<nat>>)
    requires n < |ts| && !ts[n].content.Block? && ListsBlocks(ts[n].children, sub, blocks)
    ensures OwnBlocks(ts, n, own, blocks)
  {
    own := seq(|sub|, k requires 0 <= k < |sub| => [n] + sub[k]);
    forall k | 0 <= k < |own|
      ensures Address(ts, own[k]) && own[k][0] == n && StatementAt(ts, own[k]) == blocks[k]
    {
      assert own[k][1..] == sub[k];
    }
    forall p | Address(ts, p) && p[0] == n
      ensures p in own
    {
      assert Address(ts[n].children, p[1..]);
      var k :| 0 <= k < |sub| && sub[k] == p[1..];
      assert p == own[k];
    }
  }

  /** Extraction lists the block nodes of the forest, empty ones too: these are the statements of a nest. */
  lemma {:induction false} BlocksAreStatements(ts: seq<Tree>) returns (paths: seq<seq<nat>>)
    ensures ListsBlocks(ts, paths, Blocks(ts))
    decreases ts
  {
    if ts == [] {
      paths := [];
    } else {
      var n := |ts| - 1;
      var front, t := ts[..n], ts[n];
      paths := BlocksAreStatements(front);
      var own: seq<seq<nat>>;
      if t.content.Block? {
        own := [[n]];
        LeafBlocks(ts, n);
      } else {
        var sub := BlocksAreStatements(t.children);
        own := InnerBlocks(ts, n, sub, Blocks(t.children));
      }
      ListsTogether(front, ts, t, paths, Blocks(front), own, BlocksIn(t));
      paths := paths + own;
    }
  }

  // ---------- What passes over the payloads leave alone ----------

  /** The same tree, with other numbers on the loops. */
  ghost predicate SameButLoops(t: Tree, r: Tree)
    decreases t
  {
    r.content == t.content && (!t.content.Loop? ==> r.payload == t.payload) && AllSameButLoops(t.children, r.children)
  }

  ghost predicate AllSameButLoops(ts: seq<Tree>, rs: seq<Tree>)
    decreases ts
  {
    |rs| == |ts| && forall i :: 0 <= i < |ts| ==> SameButLoops(ts[i], rs[i])
  }

  /** Numbering the loops changes nothing else. */
  lemma {:induction false} NumberingKeepsTree(ts: seq<Tree>, level: nat)
    ensures AllSameButLoops(ts, NumberLoops(ts, level))
    decreases ts
  {
    forall i | 0 <= i < |ts|
      ensures SameButLoops(ts[i], NumberLoops(ts, level)[i])
    {
      NumberLoopsAt(ts, level, i);
      NumberingKeepsTree(ts[i].children, level + LoopCount(ts[i]));
    }
  }

  /** Every loop outside blocks is unnumbered. */
  ghost predicate Unnumbered(ts: seq<Tree>)
    decreases ts
  {
    forall i :: 0 <= i < |ts| ==> (ts[i].content.Loop? ==> ts[i].payload == -1)
                                  && (!ts[i].content.Block? ==> Unnumbered(ts[i].children))
  }

  lemma {:induction false} ClearedAt(ts: seq<Tree>, i: nat)
    requires i < |ts|
    ensures AllCleared(ts)[i] == Cleared(ts[i])
    decreases |ts|
  {
    if i < |ts| - 1 {
      ClearedAt(ts[..|ts| - 1], i);
    }
  }

  lemma {:induction false} SameTree(ts: seq<Tree>)
    ensures AllSameButLoops(ts, ts)
    decreases ts
  {
    forall i | 0 <= i < |ts|
      ensures SameButLoops(ts[i], ts[i])
    {
      SameTree(ts[i].children);
    }
  }

  /** Extraction resets the number of every loop and changes nothing else. */
  lemma {:induction false} ExtractionResets(ts: seq<Tree>)
    ensures Unnumbered(AllCleared(ts)) && AllSameButLoops(ts, AllCleared(ts))
    decreases ts
  {
    forall i | 0 <= i < |ts|
      ensures SameButLoops(ts[i], AllCleared(ts)[i])
      ensures var r := AllCleared(ts)[i];
              (r.content.Loop? ==> r.payload == -1) && (!r.content.Block? ==> Unnumbered(r.children))
    {
      ClearedAt(ts, i);
      if ts[i].content.Block? {
        SameTree(ts[i].children);
      } else {
        ExtractionResets(ts[i].children);
      }
    }
  }
}
