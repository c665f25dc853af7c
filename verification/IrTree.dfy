/**
 The control tree built from a source AST: FindOneLevelControlStructure
 (chill/ir_chill.cc), build_ir_tree and extract_ir_stmts (chill/irtools.cc).
 */
module SourceTrees {
  import opened Lists

  datatype Option<T> = None | Some(value: T)

  // Simple is any statement that cannot branch. Bodies and if-parts are nullable pointers.
  datatype Ast =
    | Simple(id: int)
    | Compound(children: seq<Ast>)
    | FunctionDecl(children: seq<Ast>)
    | For(body: Option<Ast>)
    | IfStmt(thenPart: Option<Ast>, elsePart: Option<Ast>)

  // An IR_Control: straight-line code, a loop or an if.
  datatype Control =
    | Block(statements: seq<Ast>)
    | Loop(body: Option<Ast>)
    | If(thenPart: Option<Ast>, elsePart: Option<Ast>)

  /** An ir_tree_node, by value. */
  datatype Tree = Tree(content: Control, payload: int, children: seq<Tree>)

  /** The statements of the block made from a nullable pointer. */
  function Pointee(p: Option<Ast>): seq<Ast> {
    if p.Some? then [p.value] else []
  }

  // ---------- Measures and statements ----------

  function Size(a: Ast): (n: nat)
    ensures n > 0
    decreases a
  {
    match a
    case Simple(_) => 1
    case Compound(cs) => 1 + Sizes(cs)
    case FunctionDecl(cs) => 1 + Sizes(cs)
    case For(b) => if b.Some? then 1 + Size(b.value) else 1
    case IfStmt(t, e) => 1 + (if t.Some? then Size(t.value) else 0) + if e.Some? then Size(e.value) else 0
  }

  function Sizes(s: seq<Ast>): nat
    decreases s
  {
    if s == [] then 0 else Sizes(s[..|s| - 1]) + Size(s[|s| - 1])
  }

  /** The straight-line statements of the source in lexical order. */
  function Leaves(a: Ast): seq<int>
    decreases a
  {
    match a
    case Simple(id) => [id]
    case Compound(cs) => LeavesOf(cs)
    case FunctionDecl(cs) => LeavesOf(cs)
    case For(b) => if b.Some? then Leaves(b.value) else []
    case IfStmt(t, e) => (if t.Some? then Leaves(t.value) else []) + if e.Some? then Leaves(e.value) else []
  }

  function LeavesOf(s: seq<Ast>): seq<int>
    decreases s
  {
    if s == [] then [] else LeavesOf(s[..|s| - 1]) + Leaves(s[|s| - 1])
  }

  function ControlSize(c: Control): nat {
    match c
    case Block(s) => Sizes(s)
    case Loop(b) => Sizes(Pointee(b))
    case If(t, e) => Sizes(Pointee(t)) + Sizes(Pointee(e))
  }

  function ControlLeaves(c: Control): seq<int> {
    match c
    case Block(s) => LeavesOf(s)
    case Loop(b) => LeavesOf(Pointee(b))
    case If(t, e) => LeavesOf(Pointee(t)) + LeavesOf(Pointee(e))
  }

  function ControlsLeaves(cs: seq<Control>): seq<int> {
    Flatten(cs, ControlLeaves)
  }

  // ---------- One level of control structure ----------

  predicate IsControl(a: Ast) {
    a.For? || a.IfStmt?
  }

  function ControlOf(a: Ast): Control
    requires IsControl(a)
  {
    if a.For? then Loop(a.body) else If(a.thenPart, a.elsePart)
  }

  // The scan over a child list: controls pushed so far and the open basic block.
  datatype Scanned = Scanned(controls: seq<Control>, run: seq<Ast>) {
    function Push(c: Control): Scanned {
      Scanned(controls + (if run == [] then [] else [Block(run)]) + [c], [])
    }

    function Next(a: Ast): Scanned {
      if IsControl(a) then Push(ControlOf(a)) else Scanned(controls, run + [a])
    }
  }

  function Scan(children: seq<Ast>, k: nat): Scanned
    requires k <= |children|
  {
    if k == 0 then Scanned([], []) else Scan(children, k - 1).Next(children[k - 1])
  }

  predicate Unwraps(stmts: seq<Ast>) {
    |stmts| == 1 && (stmts[0].FunctionDecl? || stmts[0].Compound?)
  }

  function ChildList(stmts: seq<Ast>): seq<Ast> {
    if Unwraps(stmts) then stmts[0].children else stmts
  }

  /** What FindOneLevelControlStructure returns for a block. */
  function OneLevel(stmts: seq<Ast>): seq<Control> {
    var children := ChildList(stmts);
    var s := Scan(children, |children|);
    if |stmts| == 1 && stmts[0].For? then
      [Loop(stmts[0].body)]
    else if s.run != [] && (Unwraps(stmts) || |s.run| != |children|) then
      s.controls + [Block(s.run)]
    else
      s.controls
  }

  method FindOneLevelControlStructure(statements: seq<Ast>) returns (controls: seq<Control>)
    ensures controls == OneLevel(statements)
  {
    controls := [];
    if |statements| == 0 {
      return;
    }
    var children, unwrap := statements, false;
    if |statements| == 1 {
      match statements[0] {
        case FunctionDecl(cs) => children, unwrap := cs, true;
        case Compound(cs) => children, unwrap := cs, true;
        case For(b) => return [Loop(b)];
        case _ =>
      }
    }
    var basicBlock: seq<Ast> := [];
    for i := 0 to |children|
      invariant Scanned(controls, basicBlock) == Scan(children, i)
    {
      match children[i] {
        case For(b) =>
          if basicBlock != [] {
            controls := controls + [Block(basicBlock)];
            basicBlock := [];
          }
          controls := controls + [Loop(b)];
        case IfStmt(t, e) =>
          if basicBlock != [] {
            controls := controls + [Block(basicBlock)];
            basicBlock := [];
          }
          controls := controls + [If(t, e)];
        case _ => basicBlock := basicBlock + [children[i]];
      }
    }
    if basicBlock != [] && (unwrap || |basicBlock| != |children|) {
      controls := controls + [Block(basicBlock)];
    }
  }

  lemma SizesPrefix(s: seq<Ast>, k: nat)
    requires 0 < k <= |s|
    ensures Sizes(s[..k]) == Sizes(s[..k - 1]) + Size(s[k - 1])
    ensures LeavesOf(s[..k]) == LeavesOf(s[..k - 1]) + Leaves(s[k - 1])
  {
    assert s[..k][..k - 1] == s[..k - 1];
  }

  lemma PointeeMeasures(p: Option<Ast>)
    ensures Sizes(Pointee(p)) == if p.Some? then Size(p.value) else 0
    ensures LeavesOf(Pointee(p)) == if p.Some? then Leaves(p.value) else []
  {
    if p.Some? {
      assert [p.value][..0] == [];
      assert LeavesOf([p.value]) == LeavesOf([]) + Leaves(p.value);
    }
  }

  /**
   Controls pushed while scanning are strictly smaller than what was scanned; so is the
   open block unless it is all of it.
   */
  ghost predicate Shrinks(s: Scanned, scanned: seq<Ast>) {
    && (forall c :: c in s.controls ==> ControlSize(c) < Sizes(scanned))
    && (s.controls == [] ==> s.run == scanned)
    && (s.controls != [] ==> Sizes(s.run) < Sizes(scanned) && |s.run| < |scanned|)
  }

  lemma ControlOfMeasures(a: Ast)
    requires IsControl(a)
    ensures ControlSize(ControlOf(a)) < Size(a) && ControlLeaves(ControlOf(a)) == Leaves(a)
  {
    if a.For? {
      PointeeMeasures(a.body);
    } else {
      PointeeMeasures(a.thenPart);
      PointeeMeasures(a.elsePart);
    }
  }

  lemma SizesPush(s: seq<Ast>, a: Ast)
    ensures Sizes(s + [a]) == Sizes(s) + Size(a)
  {
    assert (s + [a])[..|s|] == s;
  }

  lemma NextShrinks(s: Scanned, scanned: seq<Ast>, a: Ast)
    requires Shrinks(s, scanned)
    ensures Shrinks(s.Next(a), scanned + [a])
  {
    SizesPush(scanned, a);
    if IsControl(a) {
      ControlOfMeasures(a);
    } else {
      SizesPush(s.run, a);
    }
  }

  lemma {:induction false} ScanSizes(children: seq<Ast>, k: nat)
    requires k <= |children|
    ensures Shrinks(Scan(children, k), children[..k])
  {
    if k > 0 {
      ScanSizes(children, k - 1);
      NextShrinks(Scan(children, k - 1), children[..k - 1], children[k - 1]);
      PrefixNext(children, k);
    }
  }

  /** Every control of a block is strictly smaller than the block, so the unwrap-and-recurse cycle ends. */
  lemma OneLevelShrinks(stmts: seq<Ast>)
    ensures forall c :: c in OneLevel(stmts) ==> ControlSize(c) < Sizes(stmts)
  {
    var children := ChildList(stmts);
    ScanSizes(children, |children|);
    WholePrefix(children);
    if |stmts| == 1 {
      SizesPrefix(stmts, 1);
      assert stmts[..1] == stmts;
      if stmts[0].For? {
        PointeeMeasures(stmts[0].body);
      }
    }
  }

  lemma ControlShrinks(stmts: seq<Ast>, i: nat)
    requires i < |OneLevel(stmts)|
    ensures ControlSize(OneLevel(stmts)[i]) < Sizes(stmts)
  {
    OneLevelShrinks(stmts);
  }

  lemma LeavesOfPush(s: seq<Ast>, a: Ast)
    ensures LeavesOf(s + [a]) == LeavesOf(s) + Leaves(a)
  {
    assert (s + [a])[..|s|] == s;
  }

  lemma PushLeaves(s: Scanned, c: Control)
    ensures ControlsLeaves(s.Push(c).controls) == ControlsLeaves(s.controls) + LeavesOf(s.run) + ControlLeaves(c)
  {
    if s.run != [] {
      FlattenPush(s.controls, Block(s.run), ControlLeaves);
      FlattenPush(s.controls + [Block(s.run)], c, ControlLeaves);
    } else {
      assert s.controls + [] == s.controls;
      FlattenPush(s.controls, c, ControlLeaves);
    }
  }

  lemma NextLeaves(s: Scanned, a: Ast)
    ensures ControlsLeaves(s.Next(a).controls) + LeavesOf(s.Next(a).run) ==
            ControlsLeaves(s.controls) + LeavesOf(s.run) + Leaves(a)
  {
    if IsControl(a) {
      ControlOfMeasures(a);
      PushLeaves(s, ControlOf(a));
    } else {
      LeavesOfPush(s.run, a);
    }
  }

  lemma {:induction false} ScanLeaves(children: seq<Ast>, k: nat)
    requires k <= |children|
    ensures ControlsLeaves(Scan(children, k).controls) + LeavesOf(Scan(children, k).run) == LeavesOf(children[..k])
  {
    if k > 0 {
      ScanLeaves(children, k - 1);
      SizesPrefix(children, k);
      NextLeaves(Scan(children, k - 1), children[k - 1]);
    }
  }

  lemma LeavesOfOne(a: Ast)
    ensures LeavesOf([a]) == Leaves(a)
  {
    LeavesOfPush([], a);
    assert [] + [a] == [a];
  }

  lemma ChildListLeaves(stmts: seq<Ast>)
    ensures LeavesOf(ChildList(stmts)) == LeavesOf(stmts)
  {
    if Unwraps(stmts) {
      LeavesOfOne(stmts[0]);
      assert stmts == [stmts[0]];
    }
  }

  lemma SingleLoopLeaves(a: Ast)
    requires a.For?
    ensures ControlsLeaves([Loop(a.body)]) == LeavesOf([a])
  {
    LeavesOfOne(a);
    PointeeMeasures(a.body);
    FlattenOne(Loop(a.body), ControlLeaves);
  }

  /** The controls of a block, when there are any, hold its statements in order. */
  lemma OneLevelLeaves(stmts: seq<Ast>)
    requires OneLevel(stmts) != []
    ensures ControlsLeaves(OneLevel(stmts)) == LeavesOf(stmts)
  {
    if |stmts| == 1 && stmts[0].For? {
      SingleLoopLeaves(stmts[0]);
      assert stmts == [stmts[0]];
    } else {
      var children := ChildList(stmts);
      var s := Scan(children, |children|);
      WholePrefix(children);
      ScanLeaves(children, |children|);
      ScanSizes(children, |children|);
      ChildListLeaves(stmts);
      FlattenPush(s.controls, Block(s.run), ControlLeaves);
    }
  }

  // ---------- The tree ----------

  // A forest and the if-counter after it.
  datatype Built = Built(trees: seq<Tree>, counter: int) {
    function Then(next: Built): Built {
      Built(trees + next.trees, next.counter)
    }
  }

  /** build_ir_tree on a block of statements. */
  function BlockForest(stmts: seq<Ast>, counter: int): Built
    decreases Sizes(stmts), 1, 0
  {
    if OneLevel(stmts) == [] then
      Built([Tree(Block(stmts), -1, [])], counter)
    else
      FirstControls(stmts, |OneLevel(stmts)|, counter)
  }

  /** The nodes of the first k controls of a block. */
  function FirstControls(stmts: seq<Ast>, k: nat, counter: int): Built
    requires k <= |OneLevel(stmts)|
    decreases Sizes(stmts), 0, k
  {
    if k == 0 then
      Built([], counter)
    else
      ControlShrinks(stmts, k - 1);
      var b := FirstControls(stmts, k - 1, counter);
      b.Then(ControlForest(OneLevel(stmts)[k - 1], b.counter))
  }

  /** The nodes of one control inside a block. */
  function ControlForest(c: Control, counter: int): Built
    decreases ControlSize(c), 2, 0
  {
    match c
    case Block(s) => BlockForest(s, counter)
    case Loop(b) => LoopForest(c, BlockForest(Pointee(b), counter))
    case If(t, e) =>
      var thens := BlockForest(Pointee(t), counter);
      if e.None? then
        IfForest(c, thens)
      else
        IfElseForest(c, thens, BlockForest(Pointee(e), thens.counter))
  }

  function LoopForest(c: Control, body: Built): Built {
    Built([Tree(c, -1, body.trees)], body.counter)
  }

  function IfForest(c: Control, thens: Built): Built {
    Built([Tree(c, thens.counter + 1, thens.trees)], thens.counter + 2)
  }

  function IfElseForest(c: Control, thens: Built, elses: Built): Built {
    Built([Tree(c, thens.counter + 1, thens.trees), Tree(c, elses.counter, elses.trees)], elses.counter + 2)
  }

  /** build_ir_tree on any control: an if that is not inside a block falls into the default case. */
  function Forest(c: Control, counter: int): Built {
    if c.If? then Built([Tree(c, -1, [])], counter) else ControlForest(c, counter)
  }

  /** Contents of the block nodes in the order extract_ir_stmts lists them. */
  function Blocks(ts: seq<Tree>): seq<Control>
    decreases ts
  {
    if ts == [] then [] else Blocks(ts[..|ts| - 1]) + BlocksIn(ts[|ts| - 1])
  }

  function BlocksIn(t: Tree): seq<Control>
    decreases t
  {
    if t.content.Block? then [t.content] else Blocks(t.children)
  }

  /** The forest extract_ir_stmts leaves behind: loop payloads from an earlier initialization are reset. */
  function Cleared(t: Tree): Tree
    decreases t
  {
    match t.content
    case Block(_) => t
    case Loop(_) => Tree(t.content, -1, AllCleared(t.children))
    case If(_, _) => Tree(t.content, t.payload, AllCleared(t.children))
  }

  function AllCleared(ts: seq<Tree>): (cs: seq<Tree>)
    ensures |cs| == |ts|
    decreases ts
  {
    if ts == [] then [] else AllCleared(ts[..|ts| - 1]) + [Cleared(ts[|ts| - 1])]
  }

  lemma ForestPush(ts: seq<Tree>, t: Tree)
    ensures AllCleared(ts + [t]) == AllCleared(ts) + [Cleared(t)]
    ensures Blocks(ts + [t]) == Blocks(ts) + BlocksIn(t)
  {
    assert (ts + [t])[..|ts|] == ts;
  }

  lemma {:induction false} BlocksAppend(ss: seq<Tree>, ts: seq<Tree>)
    ensures Blocks(ss + ts) == Blocks(ss) + Blocks(ts)
    decreases |ts|
  {
    if ts == [] {
      assert ss + ts == ss;
    } else {
      var front, last := ts[..|ts| - 1], ts[|ts| - 1];
      BlocksAppend(ss, front);
      AppendLast(ss, ts);
      ForestPush(ss + front, last);
      ForestPush(front, last);
      AppendAssociates(Blocks(ss), Blocks(front), BlocksIn(last));
    }
  }

  lemma BlocksOfOne(t: Tree)
    ensures Blocks([t]) == BlocksIn(t)
  {
    assert [t][..0] == [];
  }

  /** Statements of the blocks of a forest, in the order of extraction. */
  function Extracted(ts: seq<Tree>): seq<int> {
    ControlsLeaves(Blocks(ts))
  }

  lemma ExtractedAppend(ss: seq<Tree>, ts: seq<Tree>)
    ensures Extracted(ss + ts) == Extracted(ss) + Extracted(ts)
  {
    BlocksAppend(ss, ts);
    FlattenAppend(Blocks(ss), Blocks(ts), ControlLeaves);
  }

  lemma ExtractedOne(t: Tree)
    ensures Extracted([t]) == if t.content.Block? then ControlLeaves(t.content) else Extracted(t.children)
  {
    BlocksOfOne(t);
    FlattenOne(t.content, ControlLeaves);
  }

  lemma {:induction false} BlockForestExtracts(stmts: seq<Ast>, counter: int)
    ensures Extracted(BlockForest(stmts, counter).trees) == LeavesOf(stmts)
    decreases Sizes(stmts), 1, 0
  {
    if OneLevel(stmts) == [] {
      ExtractedOne(Tree(Block(stmts), -1, []));
    } else {
      var cs := OneLevel(stmts);
      FirstControlsExtract(stmts, |cs|, counter);
      WholePrefix(cs);
      OneLevelLeaves(stmts);
    }
  }

  lemma {:induction false} FirstControlsExtract(stmts: seq<Ast>, k: nat, counter: int)
    requires k <= |OneLevel(stmts)|
    ensures Extracted(FirstControls(stmts, k, counter).trees) == ControlsLeaves(OneLevel(stmts)[..k])
    decreases Sizes(stmts), 0, k
  {
    if k > 0 {
      ControlShrinks(stmts, k - 1);
      var cs := OneLevel(stmts);
      var b := FirstControls(stmts, k - 1, counter);
      FirstControlsExtract(stmts, k - 1, counter);
      ControlForestExtracts(cs[k - 1], b.counter);
      ExtractedAppend(b.trees, ControlForest(cs[k - 1], b.counter).trees);
      PrefixNext(cs, k);
      FlattenPush(cs[..k - 1], cs[k - 1], ControlLeaves);
    }
  }

  lemma {:induction false} ControlForestExtracts(c: Control, counter: int)
    ensures Extracted(ControlForest(c, counter).trees) == ControlLeaves(c)
    decreases ControlSize(c), 2, 0
  {
    match c {
      case Block(s) => BlockForestExtracts(s, counter);
      case Loop(b) =>
        BlockForestExtracts(Pointee(b), counter);
        ExtractedOne(ControlForest(c, counter).trees[0]);
      case If(t, e) =>
        BlockForestExtracts(Pointee(t), counter);
        var thens := BlockForest(Pointee(t), counter);
        if e.Some? {
          BlockForestExtracts(Pointee(e), thens.counter);
          IfElseExtracts(c, thens, BlockForest(Pointee(e), thens.counter));
        } else {
          ExtractedOne(ControlForest(c, counter).trees[0]);
        }
    }
  }

  lemma IfElseExtracts(c: Control, thens: Built, elses: Built)
    requires c.If?
    ensures Extracted(IfElseForest(c, thens, elses).trees) == Extracted(thens.trees) + Extracted(elses.trees)
  {
    var f := IfElseForest(c, thens, elses).trees;
    ExtractedOne(f[0]);
    ExtractedOne(f[1]);
    ExtractedAppend([f[0]], [f[1]]);
    assert f == [f[0]] + [f[1]];
  }

  /**
   Extraction lists every statement of the source exactly once, in lexical
   order, unless the control given to build_ir_tree is itself an if with
   statements: that node gets no children and its statements are lost.
   */
  lemma ExtractsEveryStatementIff(c: Control, counter: int)
    ensures Extracted(Forest(c, counter).trees) == ControlLeaves(c) <==> !(c.If? && ControlLeaves(c) != [])
  {
    if c.If? {
      ExtractedOne(Tree(c, -1, []));
    } else {
      ControlForestExtracts(c, counter);
    }
  }

  // ---------- Shape of the tree ----------

  /** A then-part has an odd payload, an else-part an even one. */
  predicate IsThen(t: Tree) {
    t.content.If? && t.payload % 2 == 1
  }

  predicate IsElse(t: Tree) {
    t.content.If? && t.payload % 2 == 0
  }

  /** The statements the source puts under a node: a then-part has an odd payload, an else-part an even one. */
  function Governed(t: Tree): seq<Ast> {
    match t.content
    case Block(s) => s
    case Loop(b) => Pointee(b)
    case If(thenPart, elsePart) => Pointee(if t.payload % 2 == 1 then thenPart else elsePart)
  }

  /** Blocks are leaves, and every other node holds exactly the statements of the part its payload names. */
  ghost predicate Faithful(t: Tree)
    decreases t
  {
    && (if t.content.Block? then t.children == [] else Extracted(t.children) == LeavesOf(Governed(t)))
    && (t.content.If? ==> t.payload >= 0 && (t.payload % 2 == 0 ==> t.content.elsePart.Some?))
    && (!t.content.If? ==> t.payload == -1)
    && forall i :: 0 <= i < |t.children| ==> Faithful(t.children[i])
  }

  ghost predicate AllFaithful(b: Built) {
    b.counter >= 0 && b.counter % 2 == 0 && forall i :: 0 <= i < |b.trees| ==> Faithful(b.trees[i])
  }

  lemma {:induction false} BlockForestFaithful(stmts: seq<Ast>, counter: nat)
    requires counter % 2 == 0
    ensures AllFaithful(BlockForest(stmts, counter))
    decreases Sizes(stmts), 1, 0
  {
    if OneLevel(stmts) != [] {
      FirstControlsFaithful(stmts, |OneLevel(stmts)|, counter);
    }
  }

  lemma {:induction false} FirstControlsFaithful(stmts: seq<Ast>, k: nat, counter: nat)
    requires k <= |OneLevel(stmts)| && counter % 2 == 0
    ensures AllFaithful(FirstControls(stmts, k, counter))
    decreases Sizes(stmts), 0, k
  {
    if k > 0 {
      ControlShrinks(stmts, k - 1);
      FirstControlsFaithful(stmts, k - 1, counter);
      ControlForestFaithful(OneLevel(stmts)[k - 1], FirstControls(stmts, k - 1, counter).counter);
    }
  }

  /** The statements of b are those of p, and its nodes are faithful. */
  ghost predicate Holds(b: Built, p: Option<Ast>) {
    AllFaithful(b) && Extracted(b.trees) == LeavesOf(Pointee(p))
  }

  lemma LoopFaithful(c: Control, body: Built)
    requires c.Loop? && Holds(body, c.body)
    ensures AllFaithful(LoopForest(c, body))
  {
  }

  lemma IfFaithful(c: Control, thens: Built)
    requires c.If? && Holds(thens, c.thenPart)
    ensures AllFaithful(IfForest(c, thens))
  {
  }

  lemma ElseFaithful(c: Control, elses: Built)
    requires c.If? && c.elsePart.Some? && Holds(elses, c.elsePart)
    ensures Faithful(Tree(c, elses.counter, elses.trees))
  {
  }

  lemma IfElseFaithful(c: Control, thens: Built, elses: Built)
    requires c.If? && c.elsePart.Some? && Holds(thens, c.thenPart) && Holds(elses, c.elsePart)
    ensures AllFaithful(IfElseForest(c, thens, elses))
  {
    IfFaithful(c, thens);
    ElseFaithful(c, elses);
  }

  /** Every node of a built tree is faithful when the counter starts even, and it stays even. */
  lemma {:induction false} ControlForestFaithful(c: Control, counter: nat)
    requires counter % 2 == 0
    ensures AllFaithful(ControlForest(c, counter))
    decreases ControlSize(c), 2, 0
  {
    match c {
      case Block(s) => BlockForestFaithful(s, counter);
      case Loop(b) =>
        BlockForestHolds(b, counter);
        LoopFaithful(c, BlockForest(Pointee(b), counter));
      case If(t, e) =>
        BlockForestHolds(t, counter);
        var thens := BlockForest(Pointee(t), counter);
        if e.Some? {
          BlockForestHolds(e, thens.counter);
          IfElseFaithful(c, thens, BlockForest(Pointee(e), thens.counter));
        } else {
          IfFaithful(c, thens);
        }
    }
  }

  lemma {:induction false} BlockForestHolds(p: Option<Ast>, counter: nat)
    requires counter % 2 == 0
    ensures Holds(BlockForest(Pointee(p), counter), p)
    decreases Sizes(Pointee(p)), 1, 1
  {
    BlockForestFaithful(Pointee(p), counter);
    BlockForestExtracts(Pointee(p), counter);
  }

  /** An else-part directly follows the then-part of its if. */
  predicate PairedAt(ts: seq<Tree>, k: nat)
    requires k < |ts|
  {
    IsElse(ts[k]) ==> k > 0 && IsThen(ts[k - 1]) && ts[k - 1].content == ts[k].content
  }

  ghost predicate Paired(ts: seq<Tree>)
    decreases ts
  {
    forall k: nat :: k < |ts| ==> PairedAt(ts, k) && Paired(ts[k].children)
  }

  lemma PairedAppend(ss: seq<Tree>, ts: seq<Tree>)
    requires Paired(ss) && Paired(ts)
    ensures Paired(ss + ts)
  {
    var all := ss + ts;
    forall k: nat | k < |all|
      ensures PairedAt(all, k) && Paired(all[k].children)
    {
      if k < |ss| {
        assert PairedAt(ss, k);
      } else {
        assert PairedAt(ts, k - |ss|);
        assert all[k] == ts[k - |ss|] && (k > |ss| ==> all[k - 1] == ts[k - 1 - |ss|]);
      }
    }
  }

  lemma FirstPairedNext(stmts: seq<Ast>, k: nat, counter: int)
    requires 0 < k <= |OneLevel(stmts)| && Paired(FirstControls(stmts, k - 1, counter).trees)
    requires Paired(ControlForest(OneLevel(stmts)[k - 1], FirstControls(stmts, k - 1, counter).counter).trees)
    ensures Paired(FirstControls(stmts, k, counter).trees)
  {
    var b := FirstControls(stmts, k - 1, counter);
    PairedAppend(b.trees, ControlForest(OneLevel(stmts)[k - 1], b.counter).trees);
  }

  /** Every tree build_ir_tree makes from a block is paired. */
  lemma {:induction false} BlockForestPaired(stmts: seq<Ast>, counter: nat)
    requires counter % 2 == 0
    ensures Paired(BlockForest(stmts, counter).trees)
    decreases Sizes(stmts), 1, 0
  {
    if OneLevel(stmts) == [] {
      assert Paired([]);
    } else {
      FirstControlsPaired(stmts, |OneLevel(stmts)|, counter);
    }
  }

  lemma {:induction false} FirstControlsPaired(stmts: seq<Ast>, k: nat, counter: nat)
    requires k <= |OneLevel(stmts)| && counter % 2 == 0
    ensures Paired(FirstControls(stmts, k, counter).trees)
    decreases Sizes(stmts), 0, k
  {
    if k > 0 {
      ControlShrinks(stmts, k - 1);
      FirstControlsPaired(stmts, k - 1, counter);
      EvenCounter(stmts, k - 1, counter);
      ControlForestPaired(OneLevel(stmts)[k - 1], FirstControls(stmts, k - 1, counter).counter);
      FirstPairedNext(stmts, k, counter);
    }
  }

  lemma {:induction false} ControlForestPaired(c: Control, counter: nat)
    requires counter % 2 == 0
    ensures Paired(ControlForest(c, counter).trees)
    decreases ControlSize(c), 2, 0
  {
    match c {
      case Block(s) => BlockForestPaired(s, counter);
      case Loop(b) => BlockForestPaired(Pointee(b), counter);
      case If(t, e) =>
        BlockForestPaired(Pointee(t), counter);
        BlockForestFaithful(Pointee(t), counter);
        var thens := BlockForest(Pointee(t), counter);
        if e.Some? {
          BlockForestPaired(Pointee(e), thens.counter);
          BlockForestFaithful(Pointee(e), thens.counter);
          var ts := ControlForest(c, counter).trees;
          assert PairedAt(ts, 0) && PairedAt(ts, 1);
        }
    }
  }

  // ---------- When payloads identify ifs ----------

  /** Payloads of the if nodes of a forest, a node before what is below it. */
  function IfPayloads(ts: seq<Tree>): seq<int>
    decreases ts
  {
    if ts == [] then [] else IfPayloads(ts[..|ts| - 1]) + IfPayloadsIn(ts[|ts| - 1])
  }

  function IfPayloadsIn(t: Tree): seq<int>
    decreases t
  {
    (if t.content.If? then [t.payload] else []) + IfPayloads(t.children)
  }

  ghost predicate Distinct(s: seq<int>) {
    forall i, j :: 0 <= i < j < |s| ==> s[i] != s[j]
  }

  /** No else-part has an if node below it. */
  ghost predicate NoIfBelowElse(ts: seq<Tree>)
    decreases ts
  {
    forall i: nat :: i < |ts| ==> (IsElse(ts[i]) ==> IfPayloads(ts[i].children) == []) && NoIfBelowElse(ts[i].children)
  }

  /** The first k controls of a block contain no if, except hidden in blocks. */
  predicate FirstIfFree(stmts: seq<Ast>, k: nat)
    requires k <= |OneLevel(stmts)|
    decreases Sizes(stmts), 0, k
  {
    k == 0 || (ControlShrinks(stmts, k - 1); FirstIfFree(stmts, k - 1) && ControlIfFree(OneLevel(stmts)[k - 1]))
  }

  predicate IfFree(stmts: seq<Ast>)
    decreases Sizes(stmts), 1, 0
  {
    FirstIfFree(stmts, |OneLevel(stmts)|)
  }

  predicate ControlIfFree(c: Control)
    decreases ControlSize(c), 2, 0
  {
    match c
    case Block(s) => IfFree(s)
    case Loop(b) => IfFree(Pointee(b))
    case If(_, _) => false
  }

  /** No else-part in the first k controls contains an if, except hidden in blocks. */
  predicate FirstElsesIfFree(stmts: seq<Ast>, k: nat)
    requires k <= |OneLevel(stmts)|
    decreases Sizes(stmts), 0, k
  {
    k == 0 || (ControlShrinks(stmts, k - 1); FirstElsesIfFree(stmts, k - 1)
      && ControlElsesIfFree(OneLevel(stmts)[k - 1]))
  }

  predicate ElsesIfFree(stmts: seq<Ast>)
    decreases Sizes(stmts), 1, 0
  {
    FirstElsesIfFree(stmts, |OneLevel(stmts)|)
  }

  predicate ControlElsesIfFree(c: Control)
    decreases ControlSize(c), 2, 0
  {
    match c
    case Block(s) => ElsesIfFree(s)
    case Loop(b) => ElsesIfFree(Pointee(b))
    case If(t, e) => ElsesIfFree(Pointee(t)) && (e.Some? ==> IfFree(Pointee(e)))
  }

  lemma IfPayloadsPush(ts: seq<Tree>, t: Tree)
    ensures IfPayloads(ts + [t]) == IfPayloads(ts) + IfPayloadsIn(t)
  {
    assert (ts + [t])[..|ts|] == ts;
  }

  lemma IfPayloadsOne(t: Tree)
    ensures IfPayloads([t]) == IfPayloadsIn(t)
  {
    IfPayloadsPush([], t);
    assert [] + [t] == [t];
  }

  lemma {:induction false} IfPayloadsAppend(ss: seq<Tree>, ts: seq<Tree>)
    ensures IfPayloads(ss + ts) == IfPayloads(ss) + IfPayloads(ts)
    decreases |ts|
  {
    if ts == [] {
      assert ss + ts == ss;
    } else {
      var front, last := ts[..|ts| - 1], ts[|ts| - 1];
      IfPayloadsAppend(ss, front);
      AppendLast(ss, ts);
      IfPayloadsPush(ss + front, last);
      IfPayloadsPush(front, last);
      AppendAssociates(IfPayloads(ss), IfPayloads(front), IfPayloadsIn(last));
    }
  }

  /**
   How a forest built from counter on is numbered: with payloads from counter up to
   where its own counter stops; the first if to be finished gets counter + 1. free
   says whether it has no if, apart whether no payload repeats.
   */
  ghost predicate NumberedFrom(payloads: seq<int>, counter: int, next: int, free: bool, apart: bool) {
    && (forall x :: x in payloads ==> counter <= x < next)
    && (if free then payloads == [] && next == counter else counter + 1 in payloads && next > counter)
    && (Distinct(payloads) <==> apart)
  }

  lemma DistinctAppend(xs: seq<int>, ys: seq<int>)
    requires forall x :: x in xs ==> x !in ys
    ensures Distinct(xs + ys) <==> Distinct(xs) && Distinct(ys)
  {
    var all := xs + ys;
    if Distinct(all) {
      assert forall i :: 0 <= i < |xs| ==> all[i] == xs[i];
      forall i, j | 0 <= i < j < |ys|
        ensures ys[i] != ys[j]
      {
        assert all[|xs| + i] == ys[i] && all[|xs| + j] == ys[j];
      }
    }
    if Distinct(xs) && Distinct(ys) {
      forall i, j | 0 <= i < j < |all|
        ensures all[i] != all[j]
      {
        if i < |xs| <= j {
          assert all[i] in xs && all[j] in ys;
        }
      }
    }
  }

  lemma NumberedThen(xs: seq<int>, ys: seq<int>, counter: int, middle: int, next: int, f: bool, g: bool, a: bool,
                     b: bool)
    requires NumberedFrom(xs, counter, middle, f, a) && NumberedFrom(ys, middle, next, g, b)
    ensures NumberedFrom(xs + ys, counter, next, f && g, a && b)
  {
    DistinctAppend(xs, ys);
  }

  /** A then-part is numbered past everything below it. */
  lemma NumberedThenPart(xs: seq<int>, counter: int, next: int, f: bool, a: bool)
    requires NumberedFrom(xs, counter, next, f, a)
    ensures NumberedFrom([next + 1] + xs, counter, next + 2, false, a)
  {
    DistinctAppend([next + 1], xs);
    assert ([next + 1] + xs)[0] == next + 1;
  }

  /** An if in the else-part repeats the number of the then-part. */
  lemma NumberedElsePart(xs: seq<int>, ys: seq<int>, counter: int, middle: int, next: int, f: bool, g: bool, a: bool,
                         b: bool)
    requires NumberedFrom(xs, counter, middle, f, a) && NumberedFrom(ys, middle, next, g, b)
    ensures NumberedFrom(([middle + 1] + xs) + ([next] + ys), counter, next + 2, false, a && g)
  {
    var first, second := [middle + 1] + xs, [next] + ys;
    NumberedThenPart(xs, counter, middle, f, a);
    assert counter + 1 in first;
    if g {
      DistinctAppend(first, second);
      assert second == [next];
    } else {
      var i :| 0 <= i < |ys| && ys[i] == middle + 1;
      assert (first + second)[0] == middle + 1 == (first + second)[|first| + 1 + i];
    }
  }

  ghost predicate BlockNumbered(stmts: seq<Ast>, counter: int) {
    var b := BlockForest(stmts, counter);
    NumberedFrom(IfPayloads(b.trees), counter, b.counter, IfFree(stmts), ElsesIfFree(stmts))
  }

  ghost predicate FirstNumbered(stmts: seq<Ast>, k: nat, counter: int)
    requires k <= |OneLevel(stmts)|
  {
    var b := FirstControls(stmts, k, counter);
    NumberedFrom(IfPayloads(b.trees), counter, b.counter, FirstIfFree(stmts, k), FirstElsesIfFree(stmts, k))
  }

  ghost predicate ControlNumbered(c: Control, counter: int) {
    var b := ControlForest(c, counter);
    NumberedFrom(IfPayloads(b.trees), counter, b.counter, ControlIfFree(c), ControlElsesIfFree(c))
  }

  lemma LeafNumbered(stmts: seq<Ast>, counter: int)
    requires OneLevel(stmts) == []
    ensures BlockNumbered(stmts, counter)
  {
    IfPayloadsOne(Tree(Block(stmts), -1, []));
    assert BlockForest(stmts, counter).trees == [Tree(Block(stmts), -1, [])];
    assert FirstIfFree(stmts, 0) && FirstElsesIfFree(stmts, 0);
  }

  lemma WholeNumbered(stmts: seq<Ast>, counter: int)
    requires OneLevel(stmts) != [] && FirstNumbered(stmts, |OneLevel(stmts)|, counter)
    ensures BlockNumbered(stmts, counter)
  {
  }

  lemma NothingNumbered(stmts: seq<Ast>, counter: int)
    ensures FirstNumbered(stmts, 0, counter)
  {
  }

  lemma FirstFreeNext(stmts: seq<Ast>, k: nat)
    requires 0 < k <= |OneLevel(stmts)|
    ensures FirstIfFree(stmts, k) <==> FirstIfFree(stmts, k - 1) && ControlIfFree(OneLevel(stmts)[k - 1])
    ensures FirstElsesIfFree(stmts, k) <==> FirstElsesIfFree(stmts, k - 1) && ControlElsesIfFree(OneLevel(stmts)[k - 1])
  {
    ControlShrinks(stmts, k - 1);
  }

  lemma FirstNumberedNext(stmts: seq<Ast>, k: nat, counter: int)
    requires 0 < k <= |OneLevel(stmts)| && FirstNumbered(stmts, k - 1, counter)
    requires ControlNumbered(OneLevel(stmts)[k - 1], FirstControls(stmts, k - 1, counter).counter)
    ensures FirstNumbered(stmts, k, counter)
  {
    var c, b := OneLevel(stmts)[k - 1], FirstControls(stmts, k - 1, counter);
    var d := ControlForest(c, b.counter);
    assert FirstControls(stmts, k, counter) == b.Then(d);
    IfPayloadsAppend(b.trees, d.trees);
    FirstFreeNext(stmts, k);
    NumberedThen(IfPayloads(b.trees), IfPayloads(d.trees), counter, b.counter, d.counter,
                 FirstIfFree(stmts, k - 1), ControlIfFree(c), FirstElsesIfFree(stmts, k - 1), ControlElsesIfFree(c));
  }

  lemma LoopNumbered(c: Control, counter: int)
    requires c.Loop? && BlockNumbered(Pointee(c.body), counter)
    ensures ControlNumbered(c, counter)
  {
    var body := BlockForest(Pointee(c.body), counter);
    IfPayloadsOne(Tree(c, -1, body.trees));
    assert [] + IfPayloads(body.trees) == IfPayloads(body.trees);
    assert ControlForest(c, counter) == LoopForest(c, body);
    assert ControlIfFree(c) == IfFree(Pointee(c.body)) && ControlElsesIfFree(c) == ElsesIfFree(Pointee(c.body));
  }

  /** An if with one part, whatever is known about it. */
  lemma ThenNumbered(c: Control, thens: Built, counter: int, f: bool, a: bool)
    requires c.If? && NumberedFrom(IfPayloads(thens.trees), counter, thens.counter, f, a)
    ensures var b := IfForest(c, thens); NumberedFrom(IfPayloads(b.trees), counter, b.counter, false, a)
  {
    IfPayloadsOne(Tree(c, thens.counter + 1, thens.trees));
    NumberedThenPart(IfPayloads(thens.trees), counter, thens.counter, f, a);
  }

  lemma IfAloneFree(c: Control)
    requires c.If? && c.elsePart.None?
    ensures !ControlIfFree(c) && (ControlElsesIfFree(c) <==> ElsesIfFree(Pointee(c.thenPart)))
  {
  }

  lemma IfNumbered(c: Control, counter: int)
    requires c.If? && c.elsePart.None? && BlockNumbered(Pointee(c.thenPart), counter)
    ensures ControlNumbered(c, counter)
  {
    var t := Pointee(c.thenPart);
    ThenNumbered(c, BlockForest(t, counter), counter, IfFree(t), ElsesIfFree(t));
    IfAloneFree(c);
  }

  lemma IfElseFree(c: Control)
    requires c.If? && c.elsePart.Some?
    ensures !ControlIfFree(c)
    ensures ControlElsesIfFree(c) <==> ElsesIfFree(Pointee(c.thenPart)) && IfFree(Pointee(c.elsePart))
  {
  }

  /** An if with both parts, whatever is known about them. */
  lemma ArmsNumbered(c: Control, thens: Built, elses: Built, counter: int, f: bool, g: bool, a: bool, b: bool)
    requires c.If?
    requires NumberedFrom(IfPayloads(thens.trees), counter, thens.counter, f, a)
    requires NumberedFrom(IfPayloads(elses.trees), thens.counter, elses.counter, g, b)
    ensures var both := IfElseForest(c, thens, elses);
            NumberedFrom(IfPayloads(both.trees), counter, both.counter, false, a && g)
  {
    IfElsePayloads(c, thens, elses);
    NumberedElsePart(IfPayloads(thens.trees), IfPayloads(elses.trees), counter, thens.counter, elses.counter, f, g, a,
                     b);
  }

  lemma IfElseNumbered(c: Control, counter: int)
    requires c.If? && c.elsePart.Some? && BlockNumbered(Pointee(c.thenPart), counter)
    requires BlockNumbered(Pointee(c.elsePart), BlockForest(Pointee(c.thenPart), counter).counter)
    ensures ControlNumbered(c, counter)
  {
    var t, e := Pointee(c.thenPart), Pointee(c.elsePart);
    var thens := BlockForest(t, counter);
    ArmsNumbered(c, thens, BlockForest(e, thens.counter), counter, IfFree(t), IfFree(e), ElsesIfFree(t),
                 ElsesIfFree(e));
    IfElseFree(c);
  }

  lemma IfElsePayloads(c: Control, thens: Built, elses: Built)
    requires c.If?
    ensures IfPayloads(IfElseForest(c, thens, elses).trees) ==
            ([thens.counter + 1] + IfPayloads(thens.trees)) + ([elses.counter] + IfPayloads(elses.trees))
  {
    var ts := IfElseForest(c, thens, elses).trees;
    IfPayloadsOne(ts[0]);
    IfPayloadsOne(ts[1]);
    IfPayloadsAppend([ts[0]], [ts[1]]);
    assert ts == [ts[0]] + [ts[1]];
  }

  lemma {:induction false} BlockForestNumbered(stmts: seq<Ast>, counter: int)
    ensures BlockNumbered(stmts, counter)
    decreases Sizes(stmts), 1, 0
  {
    if OneLevel(stmts) == [] {
      LeafNumbered(stmts, counter);
    } else {
      FirstControlsNumbered(stmts, |OneLevel(stmts)|, counter);
      WholeNumbered(stmts, counter);
    }
  }

  lemma {:induction false} FirstControlsNumbered(stmts: seq<Ast>, k: nat, counter: int)
    requires k <= |OneLevel(stmts)|
    ensures FirstNumbered(stmts, k, counter)
    decreases Sizes(stmts), 0, k
  {
    if k == 0 {
      NothingNumbered(stmts, counter);
    } else {
      ControlShrinks(stmts, k - 1);
      FirstControlsNumbered(stmts, k - 1, counter);
      ControlForestNumbered(OneLevel(stmts)[k - 1], FirstControls(stmts, k - 1, counter).counter);
      FirstNumberedNext(stmts, k, counter);
    }
  }

  lemma {:induction false} ControlForestNumbered(c: Control, counter: int)
    ensures ControlNumbered(c, counter)
    decreases ControlSize(c), 2, 0
  {
    match c {
      case Block(s) => BlockForestNumbered(s, counter);
      case Loop(b) =>
        BlockForestNumbered(Pointee(b), counter);
        LoopNumbered(c, counter);
      case If(t, e) =>
        BlockForestNumbered(Pointee(t), counter);
        if e.Some? {
          BlockForestNumbered(Pointee(e), BlockForest(Pointee(t), counter).counter);
          IfElseNumbered(c, counter);
        } else {
          IfNumbered(c, counter);
        }
    }
  }

  lemma NoIfBelowElseAppend(ss: seq<Tree>, ts: seq<Tree>)
    ensures NoIfBelowElse(ss + ts) <==> NoIfBelowElse(ss) && NoIfBelowElse(ts)
  {
    var all := ss + ts;
    assert forall i: nat :: i < |ss| ==> all[i] == ss[i];
    assert forall i: nat :: i < |ts| ==> ts[i] == all[|ss| + i];
  }

  lemma EvenCounter(stmts: seq<Ast>, k: nat, counter: nat)
    requires k <= |OneLevel(stmts)| && counter % 2 == 0
    ensures FirstControls(stmts, k, counter).counter >= 0 && FirstControls(stmts, k, counter).counter % 2 == 0
  {
    FirstControlsFaithful(stmts, k, counter);
  }

  lemma {:induction false} BlockForestElses(stmts: seq<Ast>, counter: nat)
    requires counter % 2 == 0
    ensures NoIfBelowElse(BlockForest(stmts, counter).trees) <==> ElsesIfFree(stmts)
    decreases Sizes(stmts), 1, 0
  {
    if OneLevel(stmts) == [] {
      assert NoIfBelowElse([]);
    } else {
      FirstControlsElses(stmts, |OneLevel(stmts)|, counter);
    }
  }

  lemma {:induction false} FirstControlsElses(stmts: seq<Ast>, k: nat, counter: nat)
    requires k <= |OneLevel(stmts)| && counter % 2 == 0
    ensures NoIfBelowElse(FirstControls(stmts, k, counter).trees) <==> FirstElsesIfFree(stmts, k)
    decreases Sizes(stmts), 0, k
  {
    if k > 0 {
      ControlShrinks(stmts, k - 1);
      FirstControlsElses(stmts, k - 1, counter);
      EvenCounter(stmts, k - 1, counter);
      ControlForestElses(OneLevel(stmts)[k - 1], FirstControls(stmts, k - 1, counter).counter);
      FirstElsesNext(stmts, k, counter);
    }
  }

  lemma FirstElsesNext(stmts: seq<Ast>, k: nat, counter: int)
    requires 0 < k <= |OneLevel(stmts)|
    requires NoIfBelowElse(FirstControls(stmts, k - 1, counter).trees) <==> FirstElsesIfFree(stmts, k - 1)
    requires NoIfBelowElse(ControlForest(OneLevel(stmts)[k - 1], FirstControls(stmts, k - 1, counter).counter).trees)
             <==>
             ControlElsesIfFree(OneLevel(stmts)[k - 1])
    ensures NoIfBelowElse(FirstControls(stmts, k, counter).trees) <==> FirstElsesIfFree(stmts, k)
  {
    var b := FirstControls(stmts, k - 1, counter);
    FirstFreeNext(stmts, k);
    NoIfBelowElseAppend(b.trees, ControlForest(OneLevel(stmts)[k - 1], b.counter).trees);
  }

  lemma {:induction false} ControlForestElses(c: Control, counter: nat)
    requires counter % 2 == 0
    ensures NoIfBelowElse(ControlForest(c, counter).trees) <==> ControlElsesIfFree(c)
    decreases ControlSize(c), 2, 0
  {
    match c {
      case Block(s) => BlockForestElses(s, counter);
      case Loop(b) =>
        BlockForestElses(Pointee(b), counter);
        NoIfBelowElseOne(ControlForest(c, counter).trees[0]);
      case If(t, e) =>
        BlockForestElses(Pointee(t), counter);
        BlockForestFaithful(Pointee(t), counter);
        var thens := BlockForest(Pointee(t), counter);
        if e.Some? {
          BlockForestElses(Pointee(e), thens.counter);
          BlockForestFaithful(Pointee(e), thens.counter);
          IfElseElses(c, thens, BlockForest(Pointee(e), thens.counter));
        } else {
          NoIfBelowElseOne(ControlForest(c, counter).trees[0]);
        }
    }
  }

  lemma NoPayloadsIff(stmts: seq<Ast>, counter: int)
    ensures IfPayloads(BlockForest(stmts, counter).trees) == [] <==> IfFree(stmts)
  {
    BlockForestNumbered(stmts, counter);
  }

  lemma ArmsElses(c: Control, thens: Built, elses: Built)
    requires c.If? && thens.counter % 2 == 0 && elses.counter % 2 == 0
    ensures NoIfBelowElse(IfElseForest(c, thens, elses).trees) <==>
            NoIfBelowElse(thens.trees) && IfPayloads(elses.trees) == [] && NoIfBelowElse(elses.trees)
  {
    var ts := IfElseForest(c, thens, elses).trees;
    NoIfBelowElseOne(ts[0]);
    NoIfBelowElseOne(ts[1]);
    NoIfBelowElseAppend([ts[0]], [ts[1]]);
    assert ts == [ts[0]] + [ts[1]];
  }

  lemma IfElseElses(c: Control, thens: Built, elses: Built)
    requires c.If? && c.elsePart.Some? && thens.counter % 2 == 0 && elses.counter % 2 == 0
    requires NoIfBelowElse(thens.trees) <==> ElsesIfFree(Pointee(c.thenPart))
    requires NoIfBelowElse(elses.trees) <==> ElsesIfFree(Pointee(c.elsePart))
    requires elses == BlockForest(Pointee(c.elsePart), thens.counter)
    ensures NoIfBelowElse(IfElseForest(c, thens, elses).trees) <==> ControlElsesIfFree(c)
  {
    NoPayloadsIff(Pointee(c.elsePart), thens.counter);
    IfFreeHasNoElses(Pointee(c.elsePart));
    ArmsElses(c, thens, elses);
    IfElseFree(c);
  }

  lemma NoIfBelowElseOne(t: Tree)
    ensures NoIfBelowElse([t]) <==> (IsElse(t) ==> IfPayloads(t.children) == []) && NoIfBelowElse(t.children)
  {
    assert [t][0] == t;
  }

  lemma {:induction false} IfFreeHasNoElses(stmts: seq<Ast>)
    ensures IfFree(stmts) ==> ElsesIfFree(stmts)
    decreases Sizes(stmts), 1
  {
    FirstIfFreeHasNoElses(stmts, |OneLevel(stmts)|);
  }

  lemma {:induction false} FirstIfFreeHasNoElses(stmts: seq<Ast>, k: nat)
    requires k <= |OneLevel(stmts)|
    ensures FirstIfFree(stmts, k) ==> FirstElsesIfFree(stmts, k)
    decreases Sizes(stmts), 0, k
  {
    if k > 0 {
      ControlShrinks(stmts, k - 1);
      FirstFreeNext(stmts, k);
      FirstIfFreeHasNoElses(stmts, k - 1);
      match OneLevel(stmts)[k - 1] {
        case Block(s) => IfFreeHasNoElses(s);
        case Loop(b) => IfFreeHasNoElses(Pointee(b));
        case If(_, _) =>
      }
    }
  }

  /**
   Payloads identify the if nodes of a tree exactly when no else-part has an if
   below it, and that can be read off the source: no else-part contains an if,
   except one hidden in a block.
   */
  lemma IfPayloadsDistinctIff(stmts: seq<Ast>, counter: nat)
    requires counter % 2 == 0
    ensures Distinct(IfPayloads(BlockForest(stmts, counter).trees)) <==>
            NoIfBelowElse(BlockForest(stmts, counter).trees)
    ensures Distinct(IfPayloads(BlockForest(stmts, counter).trees)) <==> ElsesIfFree(stmts)
  {
    BlockForestNumbered(stmts, counter);
    BlockForestElses(stmts, counter);
  }

  /** The smallest repetition: an if alone in an else-part has the payload of the outer then-part. */
  lemma IfPayloadsRepeat(a: Ast, b: Ast, counter: int)
    requires a.Simple? && b.Simple?
    ensures var outer := If(Some(a), Some(IfStmt(Some(b), None)));
            var ts := ControlForest(outer, counter).trees;
            |ts| == 2 && |ts[1].children| == 1 && ts[1].children[0].content.If?
              && ts[1].children[0].payload == ts[0].payload
  {
    var inner := IfStmt(Some(b), None);
    SimpleForest(a, counter);
    SimpleForest(b, counter);
    assert Scan([inner], 1) == Scan([inner], 0).Next(inner);
    assert OneLevel([inner]) == [If(Some(b), None)];
    assert FirstControls([inner], 1, counter).trees ==
           FirstControls([inner], 0, counter).trees + ControlForest(If(Some(b), None), counter).trees;
    assert BlockForest([inner], counter).trees == ControlForest(If(Some(b), None), counter).trees;
  }

  lemma SimpleForest(a: Ast, counter: int)
    requires a.Simple?
    ensures BlockForest([a], counter) == Built([Tree(Block([a]), -1, [])], counter)
  {
    assert Scan([a], 1) == Scan([a], 0).Next(a);
  }

  // ---------- Blocks that hide structure ----------

  /** No loop and no if anywhere inside. */
  predicate Straight(a: Ast)
    decreases a
  {
    match a
    case Simple(_) => true
    case Compound(cs) => StraightList(cs)
    case FunctionDecl(cs) => StraightList(cs)
    case _ => false
  }

  predicate StraightList(s: seq<Ast>)
    decreases s
  {
    s == [] || (StraightList(s[..|s| - 1]) && Straight(s[|s| - 1]))
  }

  predicate Compatible(a: Ast, b: Ast) {
    IsControl(a) || IsControl(b) || (Straight(a) && Straight(b))
  }

  /** In every statement list inside, a compound that contains a loop or an if has only loops and ifs beside it. */
  predicate Open(a: Ast)
    decreases a
  {
    match a
    case Simple(_) => true
    case Compound(cs) => OpenList(cs)
    case FunctionDecl(cs) => OpenList(cs)
    case For(b) => b.Some? ==> Open(b.value)
    case IfStmt(t, e) => (t.Some? ==> Open(t.value)) && (e.Some? ==> Open(e.value))
  }

  predicate OpenList(s: seq<Ast>)
    decreases s
  {
    s == [] ||
    (&& OpenList(s[..|s| - 1])
     && Open(s[|s| - 1])
     && (|s| > 1 ==> Compatible(s[|s| - 2], s[|s| - 1])))
  }

  predicate OpenControl(c: Control) {
    match c
    case Block(s) => OpenList(s)
    case Loop(b) => OpenList(Pointee(b))
    case If(t, e) => OpenList(Pointee(t)) && OpenList(Pointee(e))
  }

  predicate AllOpen(cs: seq<Control>) {
    Every(cs, OpenControl)
  }

  predicate StraightBlock(c: Control) {
    c.Block? && StraightList(c.statements)
  }

  lemma OpenPush(s: seq<Ast>, a: Ast)
    ensures OpenList(s + [a]) <==> OpenList(s) && Open(a) && (s != [] ==> Compatible(s[|s| - 1], a))
  {
    assert (s + [a])[..|s|] == s;
  }

  lemma OpenPointee(p: Option<Ast>)
    ensures OpenList(Pointee(p)) <==> (p.Some? ==> Open(p.value))
  {
    if p.Some? {
      OpenPush([], p.value);
      assert [] + [p.value] == [p.value];
    }
  }

  /** The open block of a scan ends with the last statement scanned, unless that was a control. */
  ghost predicate RunIsTail(s: Scanned, scanned: seq<Ast>) {
    if s.run == [] then scanned == [] || IsControl(scanned[|scanned| - 1])
    else scanned != [] && s.run[|s.run| - 1] == scanned[|scanned| - 1]
  }

  lemma NextOpen(s: Scanned, a: Ast)
    ensures (AllOpen(s.Next(a).controls) && OpenList(s.Next(a).run)) <==>
            && AllOpen(s.controls) && OpenList(s.run) && Open(a)
            && (s.run != [] ==> Compatible(s.run[|s.run| - 1], a))
  {
    if IsControl(a) {
      var c := ControlOf(a);
      if a.For? {
        OpenPointee(a.body);
      } else {
        OpenPointee(a.thenPart);
        OpenPointee(a.elsePart);
      }
      if s.run == [] {
        assert s.controls + [] == s.controls;
        EveryPush(s.controls, c, OpenControl);
      } else {
        EveryPush(s.controls, Block(s.run), OpenControl);
        EveryPush(s.controls + [Block(s.run)], c, OpenControl);
      }
    } else {
      OpenPush(s.run, a);
    }
  }

  /** What was scanned is open exactly when the controls and the open block are. */
  ghost predicate SameOpen(s: Scanned, scanned: seq<Ast>) {
    RunIsTail(s, scanned) && (AllOpen(s.controls) && OpenList(s.run) <==> OpenList(scanned))
  }

  lemma NextSameOpen(s: Scanned, scanned: seq<Ast>, a: Ast)
    requires SameOpen(s, scanned)
    ensures SameOpen(s.Next(a), scanned + [a])
  {
    NextOpen(s, a);
    OpenPush(scanned, a);
  }

  lemma {:induction false} ScanOpen(children: seq<Ast>, k: nat)
    requires k <= |children|
    ensures SameOpen(Scan(children, k), children[..k])
  {
    if k > 0 {
      ScanOpen(children, k - 1);
      NextSameOpen(Scan(children, k - 1), children[..k - 1], children[k - 1]);
      PrefixNext(children, k);
    }
  }

  lemma OpenSingle(a: Ast)
    ensures OpenList([a]) <==> Open(a)
  {
    OpenPush([], a);
    assert [] + [a] == [a];
  }

  lemma ChildListOpen(stmts: seq<Ast>)
    ensures OpenList(ChildList(stmts)) <==> OpenList(stmts)
  {
    if Unwraps(stmts) {
      OpenSingle(stmts[0]);
      assert stmts == [stmts[0]];
    }
  }

  lemma SingleLoopOpen(a: Ast)
    requires a.For?
    ensures AllOpen([Loop(a.body)]) <==> OpenList([a])
  {
    OpenSingle(a);
    OpenPointee(a.body);
    EveryOne(Loop(a.body), OpenControl);
  }

  lemma OneLevelOpen(stmts: seq<Ast>)
    requires OneLevel(stmts) != []
    ensures AllOpen(OneLevel(stmts)) <==> OpenList(stmts)
  {
    if |stmts| == 1 && stmts[0].For? {
      SingleLoopOpen(stmts[0]);
      assert stmts == [stmts[0]];
    } else {
      var children := ChildList(stmts);
      var s := Scan(children, |children|);
      WholePrefix(children);
      ScanOpen(children, |children|);
      ScanSizes(children, |children|);
      ChildListOpen(stmts);
      EveryPush(s.controls, Block(s.run), OpenControl);
    }
  }

  lemma {:induction false} StraightIsOpen(s: seq<Ast>)
    requires StraightList(s)
    ensures OpenList(s)
    decreases Sizes(s)
  {
    if s != [] {
      var front, a := s[..|s| - 1], s[|s| - 1];
      assert Sizes(s) == Sizes(front) + Size(a);
      StraightIsOpen(front);
      if !a.Simple? {
        StraightIsOpen(a.children);
      }
      if front != [] {
        assert StraightList(front) && front[|front| - 1] == s[|s| - 2];
      }
      assert OpenList(s) <==> OpenList(front) && Open(a) && (front != [] ==> Compatible(s[|s| - 2], a));
    }
  }

  /** Without controls and with at least two statements, open means straight. */
  lemma {:induction false} OpenRunIsStraight(s: seq<Ast>)
    requires |s| > 1 && OpenList(s) && forall i :: 0 <= i < |s| ==> !IsControl(s[i])
    ensures StraightList(s)
  {
    var front, a := s[..|s| - 1], s[|s| - 1];
    assert front[|front| - 1] == s[|s| - 2];
    if |front| > 1 {
      OpenRunIsStraight(front);
    } else {
      assert front[..0] == [] && StraightList(front);
    }
  }

  lemma {:induction false} NoControlsScanned(children: seq<Ast>, k: nat)
    requires k <= |children| && Scan(children, k).controls == []
    ensures forall i :: 0 <= i < k ==> !IsControl(children[i])
  {
    if k > 0 {
      NoControlsScanned(children, k - 1);
    }
  }

  lemma LeafOpen(stmts: seq<Ast>)
    requires OneLevel(stmts) == []
    ensures OpenList(stmts) <==> StraightList(stmts)
  {
    var children := ChildList(stmts);
    ScanSizes(children, |children|);
    WholePrefix(children);
    if StraightList(stmts) {
      StraightIsOpen(stmts);
    } else if |stmts| == 1 {
      assert stmts[..0] == [];
      NoControlsScanned(children, |children|);
      assert Straight(stmts[0]);
    } else if OpenList(stmts) {
      NoControlsScanned(stmts, |stmts|);
      OpenRunIsStraight(stmts);
    }
  }

  ghost predicate StraightForest(b: Built) {
    Every(Blocks(b.trees), StraightBlock)
  }

  lemma StraightForestAppend(ss: seq<Tree>, ts: seq<Tree>)
    ensures Every(Blocks(ss + ts), StraightBlock) <==>
            Every(Blocks(ss), StraightBlock) && Every(Blocks(ts), StraightBlock)
  {
    BlocksAppend(ss, ts);
    EveryAppend(Blocks(ss), Blocks(ts), StraightBlock);
  }

  lemma StraightStep(b: Built, d: Built, cs: seq<Control>, k: nat)
    requires 0 < k <= |cs|
    requires StraightForest(b) == AllOpen(cs[..k - 1])
    requires StraightForest(d) == OpenControl(cs[k - 1])
    ensures StraightForest(b.Then(d)) == AllOpen(cs[..k])
  {
    StraightForestAppend(b.trees, d.trees);
    EveryPush(cs[..k - 1], cs[k - 1], OpenControl);
    PrefixNext(cs, k);
  }

  /**
   The blocks of a built tree are straight-line code exactly when no statement
   list puts a compound that contains a loop or an if beside another
   non-branching statement; otherwise that structure is hidden in a block.
   */
  lemma {:induction false} BlocksAreStraightIff(stmts: seq<Ast>, counter: int)
    ensures StraightForest(BlockForest(stmts, counter)) <==> OpenList(stmts)
    decreases Sizes(stmts), 1, 0
  {
    if OneLevel(stmts) == [] {
      BlocksOfOne(Tree(Block(stmts), -1, []));
      LeafOpen(stmts);
      EveryOne(Block(stmts), StraightBlock);
    } else {
      var cs := OneLevel(stmts);
      FirstControlsStraightIff(stmts, |cs|, counter);
      WholePrefix(cs);
      OneLevelOpen(stmts);
    }
  }

  ghost predicate FirstAgree(stmts: seq<Ast>, k: nat, counter: int)
    requires k <= |OneLevel(stmts)|
  {
    StraightForest(FirstControls(stmts, k, counter)) == AllOpen(OneLevel(stmts)[..k])
  }

  lemma FirstAgreeNext(stmts: seq<Ast>, k: nat, counter: int)
    requires 0 < k <= |OneLevel(stmts)| && FirstAgree(stmts, k - 1, counter)
    requires var d := ControlForest(OneLevel(stmts)[k - 1], FirstControls(stmts, k - 1, counter).counter);
             StraightForest(d) == OpenControl(OneLevel(stmts)[k - 1])
    ensures FirstAgree(stmts, k, counter)
  {
    var b := FirstControls(stmts, k - 1, counter);
    StraightStep(b, ControlForest(OneLevel(stmts)[k - 1], b.counter), OneLevel(stmts), k);
  }

  lemma {:induction false} FirstControlsStraightIff(stmts: seq<Ast>, k: nat, counter: int)
    requires k <= |OneLevel(stmts)|
    ensures FirstAgree(stmts, k, counter)
    decreases Sizes(stmts), 0, k
  {
    if k > 0 {
      FirstControlsStraightIff(stmts, k - 1, counter);
      ControlShrinks(stmts, k - 1);
      ControlForestStraightIff(OneLevel(stmts)[k - 1], FirstControls(stmts, k - 1, counter).counter);
      FirstAgreeNext(stmts, k, counter);
    }
  }

  lemma {:induction false} ControlForestStraightIff(c: Control, counter: int)
    ensures StraightForest(ControlForest(c, counter)) == OpenControl(c)
    decreases ControlSize(c), 2, 0
  {
    match c {
      case Block(s) => BlocksAreStraightIff(s, counter);
      case Loop(b) =>
        BlocksAreStraightIff(Pointee(b), counter);
        BlocksOfOne(ControlForest(c, counter).trees[0]);
      case If(t, e) =>
        var thens := BlockForest(Pointee(t), counter);
        BlocksAreStraightIff(Pointee(t), counter);
        var f := ControlForest(c, counter).trees;
        BlocksOfOne(f[0]);
        if e.Some? {
          BlocksAreStraightIff(Pointee(e), thens.counter);
          BlocksOfOne(f[1]);
          StraightForestAppend([f[0]], [f[1]]);
          assert f == [f[0]] + [f[1]];
        }
    }
  }
}
