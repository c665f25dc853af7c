/**
 The control tree as linked nodes, built and edited in place: build_ir_tree and
 extract_ir_stmts (chill/irtools.cc:25-172).
 */
module IrNodes {
  import opened SourceTrees
  import opened Lists

  class IrNode {
    const content: Control
    var parent: IrNode?
    var children: seq<IrNode>
    var payload: int
    ghost var repr: set<IrNode>

    constructor (content: Control, parent: IrNode?, payload: int)
      ensures this.content == content && this.parent == parent && this.payload == payload
      ensures children == [] && repr == {this}
    {
      this.content, this.parent, this.payload := content, parent, payload;
      children := [];
      repr := {this};
    }

    /** This node and everything below it, with parent links, is the tree t under p. */
    ghost predicate Is(p: IrNode?, t: Tree)
      reads this, repr
      decreases t, 0
    {
      && this in repr
      && parent == p && content == t.content && payload == t.payload
      && (forall n :: n in children ==> n in repr - {this})
      && Footprint(children) == repr - {this}
      && AreTrees(children, this, t.children)
    }

    /** Hangs the nodes, already built with this as parent, below this. */
    method Adopt(nodes: seq<IrNode>, ghost ts: seq<Tree>)
      requires AreTrees(nodes, this, ts) && this !in Footprint(nodes)
      modifies this`children, this`repr
      ensures Is(parent, Tree(content, payload, ts)) && repr == {this} + old(Footprint(nodes))
    {
      RootsInFootprint(nodes, this, ts);
      children := nodes;
      repr := {this} + Footprint(nodes);
    }

    method SetPayload(value: int, ghost p: IrNode?, ghost t: Tree)
      requires Is(p, t)
      modifies this`payload
      ensures Is(p, t.(payload := value))
    {
      payload := value;
    }
  }

  ghost function Footprint(ns: seq<IrNode>): set<IrNode>
    reads set n | n in ns
  {
    if ns == [] then {} else Footprint(ns[..|ns| - 1]) + ns[|ns| - 1].repr
  }

  /** The nodes ns are the disjoint trees ts under p. */
  ghost predicate AreTrees(ns: seq<IrNode>, p: IrNode?, ts: seq<Tree>)
    reads (set n | n in ns), Footprint(ns)
    decreases ts, 1
  {
    && |ns| == |ts|
    && (ns != [] ==>
          && AreTrees(ns[..|ns| - 1], p, ts[..|ts| - 1])
          && ns[|ns| - 1].Is(p, ts[|ts| - 1])
          && Footprint(ns[..|ns| - 1]) !! ns[|ns| - 1].repr)
  }

  lemma {:induction false} RootsInFootprint(ns: seq<IrNode>, p: IrNode?, ts: seq<Tree>)
    requires AreTrees(ns, p, ts)
    ensures forall n :: n in ns ==> n in Footprint(ns)
    decreases |ns|
  {
    if ns != [] {
      RootsInFootprint(ns[..|ns| - 1], p, ts[..|ts| - 1]);
    }
  }

  lemma TreesPush(ns: seq<IrNode>, n: IrNode, p: IrNode?, ts: seq<Tree>, t: Tree)
    requires AreTrees(ns, p, ts) && n.Is(p, t) && Footprint(ns) !! n.repr
    ensures AreTrees(ns + [n], p, ts + [t]) && Footprint(ns + [n]) == Footprint(ns) + n.repr
  {
    assert (ns + [n])[..|ns|] == ns && (ts + [t])[..|ts|] == ts;
  }

  lemma {:induction false} TreesAppend(ns: seq<IrNode>, ms: seq<IrNode>, p: IrNode?, ts: seq<Tree>, us: seq<Tree>)
    requires AreTrees(ns, p, ts) && AreTrees(ms, p, us) && Footprint(ns) !! Footprint(ms)
    ensures AreTrees(ns + ms, p, ts + us) && Footprint(ns + ms) == Footprint(ns) + Footprint(ms)
    decreases |ms|
  {
    if ms == [] {
      assert ns + ms == ns && ts + us == ts;
    } else {
      var k := |ms| - 1;
      TreesAppend(ns, ms[..k], p, ts, us[..k]);
      TreesPush(ns + ms[..k], ms[k], p, ts + us[..k], us[k]);
      AppendLast(ns, ms);
      AppendLast(ts, us);
    }
  }

  lemma OneTree(n: IrNode, p: IrNode?, t: Tree)
    requires n.Is(p, t)
    ensures AreTrees([n], p, [t]) && Footprint([n]) == n.repr
  {
    TreesPush([], n, p, [], t);
    assert [] + [n] == [n] && [] + [t] == [t];
  }

  lemma TwoTrees(n: IrNode, m: IrNode, p: IrNode?, ts: seq<Tree>)
    requires |ts| == 2 && n.Is(p, ts[0]) && m.Is(p, ts[1]) && n.repr !! m.repr
    ensures AreTrees([n, m], p, ts) && Footprint([n, m]) == n.repr + m.repr
  {
    OneTree(n, p, ts[0]);
    TreesPush([n], m, p, [ts[0]], ts[1]);
    assert [n] + [m] == [n, m] && [ts[0]] + [ts[1]] == ts;
  }

  lemma {:induction false} FootprintAllocated(ns: seq<IrNode>)
    ensures forall n :: n in Footprint(ns) ==> allocated(n)
    decreases |ns|
  {
    if ns != [] {
      FootprintAllocated(ns[..|ns| - 1]);
    }
  }

  class IrBuilder {
    // static int unique_if_identifier
    var uniqueIfIdentifier: int

    constructor ()
      ensures uniqueIfIdentifier == 0
    {
      uniqueIfIdentifier := 0;
    }

    /** A node over the tree of one block. */
    method BuildNode(control: Control, body: Option<Ast>, parent: IrNode?) returns (node: IrNode)
      modifies this
      decreases Sizes(Pointee(body)), 1
      ensures var b := BlockForest(Pointee(body), old(uniqueIfIdentifier));
              uniqueIfIdentifier == b.counter && node.Is(parent, Tree(control, -1, b.trees))
      ensures fresh(node.repr)
    {
      node := new IrNode(control, parent, -1);
      var nodes := BuildIrTree(Block(Pointee(body)), node);
      node.Adopt(nodes, BlockForest(Pointee(body), old(uniqueIfIdentifier)).trees);
    }

    method BuildIrTree(control: Control, parent: IrNode?) returns (result: seq<IrNode>)
      modifies this
      decreases ControlSize(control), if control.Block? then 0 else 2, 1
      ensures var b := Forest(control, old(uniqueIfIdentifier));
              uniqueIfIdentifier == b.counter && AreTrees(result, parent, b.trees)
      ensures fresh(Footprint(result))
    {
      match control {
        case Block(statements) =>
          result := BuildBlock(control, parent);
          assert Forest(control, old(uniqueIfIdentifier)) == ControlForest(control, old(uniqueIfIdentifier));
        case Loop(body) =>
          var node := BuildNode(control, body, parent);
          OneTree(node, parent, Forest(control, old(uniqueIfIdentifier)).trees[0]);
          result := [node];
        case If(_, _) =>
          var node := new IrNode(control, parent, -1);
          OneTree(node, parent, Tree(control, -1, []));
          result := [node];
      }
    }

    /** Either a leaf or the nodes of the block's controls. */
    method BuildBlock(control: Control, parent: IrNode?) returns (result: seq<IrNode>)
      requires control.Block?
      modifies this
      decreases ControlSize(control), 0, 0
      ensures var b := BlockForest(control.statements, old(uniqueIfIdentifier));
              uniqueIfIdentifier == b.counter && AreTrees(result, parent, b.trees)
      ensures fresh(Footprint(result))
    {
      var controls := FindOneLevelControlStructure(control.statements);
      if controls == [] {
        var node := new IrNode(control, parent, -1);
        OneTree(node, parent, Tree(control, -1, []));
        return [node];
      }
      result := [];
      ghost var built, created: set<IrNode> := Built([], uniqueIfIdentifier), {};
      for i := 0 to |controls|
        invariant built == FirstControls(control.statements, i, old(uniqueIfIdentifier))
        invariant uniqueIfIdentifier == built.counter && AreTrees(result, parent, built.trees)
        invariant Footprint(result) == created && fresh(created)
      {
        ControlShrinks(control.statements, i);
        ghost var added;
        result, built, added := BuildNext(controls[i], parent, result, built);
        created := created + added;
      }
    }

    /** One more control after the nodes already built. */
    method BuildNext(control: Control, parent: IrNode?, done: seq<IrNode>, ghost built: Built)
      returns (result: seq<IrNode>, ghost next: Built, ghost added: set<IrNode>)
      requires AreTrees(done, parent, built.trees) && uniqueIfIdentifier == built.counter
      modifies this
      decreases ControlSize(control), 5, 0
      ensures next == built.Then(ControlForest(control, built.counter))
      ensures AreTrees(result, parent, next.trees) && uniqueIfIdentifier == next.counter
      ensures Footprint(result) == old(Footprint(done)) + added && fresh(added)
    {
      RootsInFootprint(done, parent, built.trees);
      FootprintAllocated(done);
      var nodes := BuildControl(control, parent);
      ghost var more := ControlForest(control, built.counter);
      TreesAppend(done, nodes, parent, built.trees, more.trees);
      result, next, added := done + nodes, built.Then(more), Footprint(nodes);
    }

    /** The nodes of one control inside a block. */
    method BuildControl(control: Control, parent: IrNode?) returns (result: seq<IrNode>)
      modifies this
      decreases ControlSize(control), 4
      ensures var b := ControlForest(control, old(uniqueIfIdentifier));
              uniqueIfIdentifier == b.counter && AreTrees(result, parent, b.trees)
      ensures fresh(Footprint(result))
    {
      match control {
        case Block(_) =>
          result := BuildIrTree(control, parent);
        case Loop(body) =>
          var node := BuildNode(control, body, parent);
          OneTree(node, parent, ControlForest(control, old(uniqueIfIdentifier)).trees[0]);
          result := [node];
        case If(_, _) =>
          result := BuildIf(control, parent);
      }
    }

    /** One part of an if, numbered from the counter its own subtree leaves. */
    method BuildPart(control: Control, body: Option<Ast>, parent: IrNode?, offset: int) returns (node: IrNode)
      modifies this
      decreases Sizes(Pointee(body)), 2
      ensures var b := BlockForest(Pointee(body), old(uniqueIfIdentifier));
              uniqueIfIdentifier == b.counter && node.Is(parent, Tree(control, b.counter + offset, b.trees))
      ensures fresh(node.repr)
    {
      ghost var b := BlockForest(Pointee(body), uniqueIfIdentifier);
      node := BuildNode(control, body, parent);
      node.SetPayload(uniqueIfIdentifier + offset, parent, Tree(control, -1, b.trees));
    }

    /** The then-part is numbered after its own subtree, the else-part after both. */
    method BuildIf(control: Control, parent: IrNode?) returns (result: seq<IrNode>)
      requires control.If?
      modifies this
      decreases ControlSize(control), 3
      ensures var b := ControlForest(control, old(uniqueIfIdentifier));
              uniqueIfIdentifier == b.counter && AreTrees(result, parent, b.trees)
      ensures fresh(Footprint(result))
    {
      ghost var thens := BlockForest(Pointee(control.thenPart), uniqueIfIdentifier);
      var node := BuildPart(control, control.thenPart, parent, 1);
      OneTree(node, parent, IfForest(control, thens).trees[0]);
      result := [node];
      if control.elsePart.Some? {
        ghost var elses := BlockForest(Pointee(control.elsePart), uniqueIfIdentifier);
        var other := BuildPart(control, control.elsePart, parent, 0);
        TwoTrees(node, other, parent, IfElseForest(control, thens, elses).trees);
        result := [node, other];
      }
      uniqueIfIdentifier := uniqueIfIdentifier + 2;
    }
  }

  // ---------- Extraction ----------

  ghost predicate Apart(ns: seq<IrNode>)
    reads set n | n in ns
  {
    forall i, j :: 0 <= i < j < |ns| ==> ns[i].repr !! ns[j].repr
  }

  lemma {:induction false} FootprintMember(ns: seq<IrNode>, o: IrNode)
    ensures o in Footprint(ns) <==> exists k :: 0 <= k < |ns| && o in ns[k].repr
    decreases |ns|
  {
    if ns != [] {
      FootprintMember(ns[..|ns| - 1], o);
    }
  }

  lemma {:induction false} EachTree(ns: seq<IrNode>, p: IrNode?, ts: seq<Tree>)
    requires AreTrees(ns, p, ts)
    ensures Apart(ns) && forall k :: 0 <= k < |ns| ==> ns[k].Is(p, ts[k])
    decreases |ns|
  {
    if ns != [] {
      var front, last := ns[..|ns| - 1], ns[|ns| - 1];
      EachTree(front, p, ts[..|ts| - 1]);
      forall i | 0 <= i < |front|
        ensures ns[i].repr !! last.repr && ns[i].Is(p, ts[i])
      {
        assert ns[i] == front[i] && ts[i] == ts[..|ts| - 1][i];
        forall o | o in ns[i].repr
          ensures o !in last.repr
        {
          FootprintMember(front, o);
        }
      }
    }
  }

  lemma MemberFootprint(ns: seq<IrNode>, i: nat)
    requires i < |ns|
    ensures ns[i].repr <= Footprint(ns)
  {
    forall o | o in ns[i].repr
      ensures o in Footprint(ns)
    {
      FootprintMember(ns, o);
    }
  }

  /** The nodes hold these controls, in order. */
  ghost predicate Hold(ns: seq<IrNode>, cs: seq<Control>) {
    |ns| == |cs| && forall k :: 0 <= k < |ns| ==> ns[k].content == cs[k]
  }

  /** Different nodes, all of them in the set. */
  ghost predicate NodesOf(ns: seq<IrNode>, from: set<IrNode>) {
    (forall n :: n in ns ==> n in from) && forall i, j :: 0 <= i < j < |ns| ==> ns[i] != ns[j]
  }

  lemma NodesOfMore(ns: seq<IrNode>, ms: seq<IrNode>, from: set<IrNode>, more: set<IrNode>)
    requires NodesOf(ns, from) && NodesOf(ms, more) && from !! more
    ensures NodesOf(ns + ms, from + more)
  {
    var all := ns + ms;
    forall i, j | 0 <= i < j < |all|
      ensures all[i] != all[j]
    {
      if i < |ns| <= j {
        assert all[i] in from && all[j] in more;
      }
    }
  }

  /** The blocks of one more tree, and its cleared form. */
  lemma HoldNext(ns: seq<IrNode>, ms: seq<IrNode>, ts: seq<Tree>, i: nat)
    requires i < |ts| && Hold(ns, Blocks(ts[..i])) && Hold(ms, BlocksIn(ts[i]))
    ensures Hold(ns + ms, Blocks(ts[..i + 1]))
  {
    PrefixNext(ts, i + 1);
    ForestPush(ts[..i], ts[i]);
  }

  /** The trees after the first i have been visited. */
  ghost function PartlyCleared(ts: seq<Tree>, i: nat): (us: seq<Tree>)
    requires i <= |ts|
    ensures |us| == |ts|
  {
    AllCleared(ts[..i]) + ts[i..]
  }

  lemma ClearedNext(ts: seq<Tree>, i: nat)
    requires i < |ts|
    ensures PartlyCleared(ts, i)[i] == ts[i]
    ensures PartlyCleared(ts, i + 1) == PartlyCleared(ts, i)[i := Cleared(ts[i])]
  {
    PrefixNext(ts, i + 1);
    ForestPush(ts[..i], ts[i]);
  }

  twostate lemma {:induction false} FootprintKept(ns: seq<IrNode>)
    requires forall n :: n in ns ==> n.repr == old(n.repr)
    ensures Footprint(ns) == old(Footprint(ns))
    decreases |ns|
  {
    if ns != [] {
      FootprintKept(ns[..|ns| - 1]);
    }
  }

  /** One more node adds its own nodes, which are not among those before it. */
  lemma FootprintNext(ns: seq<IrNode>, p: IrNode?, ts: seq<Tree>, i: nat)
    requires AreTrees(ns, p, ts) && i < |ns|
    ensures Footprint(ns[..i + 1]) == Footprint(ns[..i]) + ns[i].repr && Footprint(ns[..i]) !! ns[i].repr
  {
    EachTree(ns, p, ts);
    assert ns[..i + 1][..i] == ns[..i];
    forall o | o in Footprint(ns[..i])
      ensures o !in ns[i].repr
    {
      FootprintMember(ns[..i], o);
    }
  }

  lemma {:induction false} FromEachTree(ns: seq<IrNode>, p: IrNode?, ts: seq<Tree>)
    requires |ns| == |ts| && Apart(ns) && forall k :: 0 <= k < |ns| ==> ns[k].Is(p, ts[k])
    ensures AreTrees(ns, p, ts)
    decreases |ns|
  {
    if ns != [] {
      var front, last := ns[..|ns| - 1], ns[|ns| - 1];
      FromEachTree(front, p, ts[..|ts| - 1]);
      forall o | o in Footprint(front)
        ensures o !in last.repr
      {
        FootprintMember(front, o);
      }
    }
  }

  /** extract_ir_stmts: the block nodes in lexical order; loop payloads are cleared on the way. */
  method ExtractIrStmts(irTree: seq<IrNode>, ghost p: IrNode?, ghost ts: seq<Tree>) returns (result: seq<IrNode>)
    requires AreTrees(irTree, p, ts)
    modifies Footprint(irTree)`payload
    decreases ts, 3
    ensures AreTrees(irTree, p, AllCleared(ts)) && Footprint(irTree) == old(Footprint(irTree))
    ensures Hold(result, Blocks(ts)) && NodesOf(result, Footprint(irTree))
  {
    result := [];
    ghost var us := ts;
    NothingExtracted(irTree, ts);
    for i := 0 to |irTree|
      invariant AreTrees(irTree, p, us) && Footprint(irTree) == old(Footprint(irTree))
      invariant us == PartlyCleared(ts, i)
      invariant Extracted(irTree, i, ts, result)
    {
      ClearedNext(ts, i);
      result := ExtractNext(irTree, i, p, us, ts, result);
      us := us[i := Cleared(ts[i])];
    }
    AllExtracted(irTree, ts, result);
  }

  /** result holds the blocks of the first i trees, and its nodes are nodes of them. */
  ghost predicate Extracted(ns: seq<IrNode>, i: nat, ts: seq<Tree>, result: seq<IrNode>)
    requires i <= |ns| == |ts|
    reads set n | n in ns
  {
    Hold(result, Blocks(ts[..i])) && NodesOf(result, Footprint(ns[..i]))
  }

  lemma NothingExtracted(ns: seq<IrNode>, ts: seq<Tree>)
    requires |ns| == |ts|
    ensures Extracted(ns, 0, ts, []) && PartlyCleared(ts, 0) == ts
  {
  }

  lemma AllExtracted(ns: seq<IrNode>, ts: seq<Tree>, result: seq<IrNode>)
    requires |ns| == |ts| && Extracted(ns, |ns|, ts, result)
    ensures Hold(result, Blocks(ts)) && NodesOf(result, Footprint(ns)) && PartlyCleared(ts, |ns|) == AllCleared(ts)
  {
    WholePrefix(ts);
    WholePrefix(ns);
  }

  /** One pass of the loop. */
  method ExtractNext(irTree: seq<IrNode>, i: nat, ghost p: IrNode?, ghost us: seq<Tree>, ghost ts: seq<Tree>,
                     done: seq<IrNode>)
    returns (result: seq<IrNode>)
    requires AreTrees(irTree, p, us) && i < |irTree| == |ts| && us[i] == ts[i] && Extracted(irTree, i, ts, done)
    modifies Footprint(irTree)`payload
    decreases ts[i], 2
    ensures AreTrees(irTree, p, us[i := Cleared(us[i])]) && Footprint(irTree) == old(Footprint(irTree))
    ensures Extracted(irTree, i + 1, ts, result)
  {
    ghost var before := Footprint(irTree[..i]);
    var nodes := ExtractAt(irTree, i, p, us);
    assert Footprint(irTree[..i]) == before by {
      assert forall n :: n in irTree[..i] ==> n in irTree;
      FootprintKept(irTree[..i]);
    }
    HoldNext(done, nodes, ts, i);
    FootprintNext(irTree, p, us[i := Cleared(us[i])], i);
    NodesOfMore(done, nodes, before, irTree[i].repr);
    result := done + nodes;
  }

  /** The blocks under one node; the other nodes of the list keep their trees. */
  method ExtractAt(irTree: seq<IrNode>, i: nat, ghost p: IrNode?, ghost ts: seq<Tree>) returns (result: seq<IrNode>)
    requires AreTrees(irTree, p, ts) && i < |irTree|
    modifies Footprint(irTree)`payload
    decreases ts[i], 1
    ensures AreTrees(irTree, p, ts[i := Cleared(ts[i])]) && Footprint(irTree) == old(Footprint(irTree))
    ensures forall n :: n in irTree ==> n.repr == old(n.repr)
    ensures Hold(result, BlocksIn(ts[i])) && NodesOf(result, irTree[i].repr)
  {
    EachTree(irTree, p, ts);
    MemberFootprint(irTree, i);
    result := ExtractFrom(irTree[i], p, ts[i]);
    FromEachTree(irTree, p, ts[i := Cleared(ts[i])]);
    FootprintKept(irTree);
  }

  method ExtractFrom(node: IrNode, ghost p: IrNode?, ghost t: Tree) returns (result: seq<IrNode>)
    requires node.Is(p, t)
    modifies node.repr`payload
    decreases t, 0
    ensures node.Is(p, Cleared(t))
    ensures Hold(result, BlocksIn(t)) && NodesOf(result, node.repr)
  {
    match node.content {
      case Block(_) =>
        result := [node];
      case Loop(_) =>
        node.SetPayload(-1, p, t);
        result := ExtractIrStmts(node.children, node, t.children);
      case If(_, _) =>
        result := ExtractIrStmts(node.children, node, t.children);
    }
  }
}
