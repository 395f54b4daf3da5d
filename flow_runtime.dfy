/**
 * The orchestrator of the flow runtime (`FlowRuntime`): the node-type registry, the compilation of
 * a flow, the creation of one executable node per compiled node, the linking of the compiled tree
 * through `addChild`, and the two sequential passes over the roots (every root whose node type is
 * not `entrypoint` first, then the `entrypoint` roots), with the first failure caught and logged.
 */
module Runtime {
  import opened Types
  import opened FlowCompiler
  import opened Compilation
  import opened NodeProtocol
  import opened NodeRun
  import opened NodeRegistry
  import opened ExecutableNode

  /** The node type whose roots run in the second pass. */
  const Entrypoint: string := "entrypoint"

  /** The node type that becomes a `LoopExecutable`. */
  const ForEach: string := "ForEach"

  /** `GetExecutableNode`: a loop executable for a `ForEach` definition, a plain one otherwise; an unknown type throws. */
  function GetExecutableNode(reg: Registry, s: SerializedNode): (r: Result<ExecNode, string>)
    ensures r.Ok? <==> s.nodeType in reg
    ensures r.Ok? ==>
      && r.value.serialized == s && r.value.executor == reg[s.nodeType].execute
      && (r.value.kind == Loop <==> reg[s.nodeType].nodeType == ForEach)
      && r.value.children == [] && r.value.parents == [] && r.value.results == []
    ensures r.Err? ==> r.error == "Could not find executable node with type " + s.nodeType
  {
    if s.nodeType in reg then
      var def := reg[s.nodeType];
      Ok(NewNode(if def.nodeType == ForEach then Loop else Plain, def.execute, s))
    else
      Err("Could not find executable node with type " + s.nodeType)
  }

  /** Every compiled node's type is registered. */
  ghost predicate AllTypesKnown(reg: Registry, m: NodeMap) {
    forall id | id in m :: m[id].nodeType in reg
  }

  /**
   * `CreateExecutableNodeMap`: one fresh executable node per entry of the compiled map, or nothing
   * when some type is not registered (the throw of `GetExecutableNode` aborts the whole `reduce`).
   */
  function CreateExecutableNodeMap(reg: Registry, m: NodeMap): (r: Option<Arena>)
    ensures r.Some? <==> AllTypesKnown(reg, m)
    ensures r.Some? ==> r.value.Keys == m.Keys
    ensures r.Some? ==> forall id | id in m :: GetExecutableNode(reg, m[id]) == Ok(r.value[id])
  {
    if forall id | id in m :: m[id].nodeType in reg then
      Some(map id | id in m :: GetExecutableNode(reg, m[id]).value)
    else
      None
  }

  // ---------------------------------------------------------------------------------------------
  // Linking (`recursivelyJoin`)

  /** `recursivelyJoin(parent)`: for each child, `addChild` on the parent, then join the child's subtree. */
  function Join(a: Arena, c: CompiledNode): (r: Arena)
    requires TreeIds(c) <= a.Keys
    ensures r.Keys == a.Keys
    decreases c, 1
  {
    JoinChildren(a, c.id, c.children)
  }

  function JoinChildren(a: Arena, parentId: NodeId, cs: seq<CompiledChild>): (r: Arena)
    requires parentId in a && ChildrenIds(cs) <= a.Keys
    ensures r.Keys == a.Keys
    decreases cs, 0
  {
    if cs == [] then a
    else
      assert cs[0].node.id in TreeIds(cs[0].node);
      var a1 := AddChild(a, parentId, cs[0].node.id, cs[0].connections);
      var a2 := Join(a1, cs[0].node);
      JoinChildren(a2, parentId, cs[1..])
  }

  /** `roots.forEach(recursivelyJoin)`. */
  function JoinAll(a: Arena, roots: seq<CompiledNode>): (r: Arena)
    requires forall i | 0 <= i < |roots| :: TreeIds(roots[i]) <= a.Keys
    ensures r.Keys == a.Keys
    decreases |roots|
  {
    if roots == [] then a else JoinAll(Join(a, roots[0]), roots[1..])
  }

  /** Linking only appends links: kinds, executors, serialized nodes and results stay as they were. */
  ghost predicate Grows(a: Arena, b: Arena) {
    a.Keys == b.Keys && forall id | id in a :: GrowsNode(a[id], b[id])
  }

  ghost predicate GrowsNode(m: ExecNode, n: ExecNode) {
    && n.kind == m.kind && n.executor == m.executor && n.serialized == m.serialized && n.results == m.results
    && m.children <= n.children && m.parents <= n.parents
  }

  /** Every child link targets an id that some edge of the flow ends at. */
  ghost predicate Targeted(a: Arena, edges: seq<Edge>) {
    forall id, i | id in a && 0 <= i < |a[id].children| :: IsTarget(edges, a[id].children[i].node)
  }

  /** What linking keeps: registration invariants, child links ranked downwards, child links on edge targets. */
  ghost predicate Joinable(a: Arena, edges: seq<Edge>, rank: NodeId -> nat) {
    Registered(a) && WellFormed(a, rank) && Targeted(a, edges)
  }

  lemma GrowsTransitive(a: Arena, b: Arena, c: Arena)
    requires Grows(a, b) && Grows(b, c)
    ensures Grows(a, c)
  {
    forall id | id in a ensures GrowsNode(a[id], c[id]) {
      assert GrowsNode(a[id], b[id]) && GrowsNode(b[id], c[id]);
    }
  }

  lemma AddChildGrows(a: Arena, parent: NodeId, child: NodeId, connections: seq<Edge>)
    requires parent in a && child in a
    ensures Grows(a, AddChild(a, parent, child, connections))
  {
    var r := AddChild(a, parent, child, connections);
    if !HasChild(a[parent], child) {
      var n := a[parent];
      var a1 := a[parent := n.(children := n.children + [ChildLink(child, connections)])];
      assert Grows(a, a1) by {
        forall id | id in a ensures GrowsNode(a[id], a1[id]) {
        }
      }
      assert Grows(a1, r) by {
        forall id | id in a1 ensures GrowsNode(a1[id], r[id]) {
        }
      }
      GrowsTransitive(a, a1, r);
    }
  }

  lemma AddChildKeepsJoinable(a: Arena, parent: NodeId, child: NodeId, connections: seq<Edge>, edges: seq<Edge>, rank: NodeId -> nat)
    requires parent in a && child in a && Joinable(a, edges, rank)
    requires rank(child) < rank(parent) && IsTarget(edges, child)
    ensures Joinable(AddChild(a, parent, child, connections), edges, rank)
  {
    AddChildKeepsRegistered(a, parent, child, connections);
    if !HasChild(a[parent], child) {
      assert ChildConnections(a[parent], child) == ParentConnections(a[child], parent);
      AddChildKeepsLinksRanked(a, parent, child, connections, edges, rank);
    }
  }

  /** A new child link ranked below its parent and ending at an edge target keeps child links ranked and targeted. */
  lemma AddChildKeepsLinksRanked(a: Arena, parent: NodeId, child: NodeId, connections: seq<Edge>, edges: seq<Edge>, rank: NodeId -> nat)
    requires parent in a && child in a && !HasChild(a[parent], child) && !HasParent(a[child], parent)
    requires WellFormed(a, rank) && Targeted(a, edges)
    requires rank(child) < rank(parent) && IsTarget(edges, child)
    ensures WellFormed(AddChild(a, parent, child, connections), rank)
    ensures Targeted(AddChild(a, parent, child, connections), edges)
  {
    var r := AddChild(a, parent, child, connections);
    forall id | id in r
      ensures ChildrenBelow(r, r[id].children, rank(id), rank)
      ensures forall i | 0 <= i < |r[id].children| :: IsTarget(edges, r[id].children[i].node)
    {
      AddChildShape(a, parent, child, connections, id);
      assert ChildrenBelow(a, a[id].children, rank(id), rank);
    }
  }

  lemma GrowsReflexive(a: Arena)
    ensures Grows(a, a)
  {
    forall id | id in a ensures GrowsNode(a[id], a[id]) {
    }
  }

  lemma {:induction false} JoinKeepsJoinable(a: Arena, c: CompiledNode, edges: seq<Edge>, rank: NodeId -> nat)
    requires TreeIds(c) <= a.Keys && Joinable(a, edges, rank) && TreeRanked(c, edges, rank)
    ensures Joinable(Join(a, c), edges, rank)
    decreases c, 1
  {
    JoinChildrenKeepsJoinable(a, c.id, c.children, edges, rank);
  }

  lemma {:induction false} JoinChildrenKeepsJoinable(a: Arena, parentId: NodeId, cs: seq<CompiledChild>, edges: seq<Edge>, rank: NodeId -> nat)
    requires parentId in a && ChildrenIds(cs) <= a.Keys && Joinable(a, edges, rank) && ChildrenRanked(parentId, cs, edges, rank)
    ensures Joinable(JoinChildren(a, parentId, cs), edges, rank)
    decreases cs, 0
  {
    if cs != [] {
      assert cs[0].node.id in TreeIds(cs[0].node);
      var a1 := AddChild(a, parentId, cs[0].node.id, cs[0].connections);
      AddChildKeepsJoinable(a, parentId, cs[0].node.id, cs[0].connections, edges, rank);
      var a2 := Join(a1, cs[0].node);
      JoinKeepsJoinable(a1, cs[0].node, edges, rank);
      JoinChildrenKeepsJoinable(a2, parentId, cs[1..], edges, rank);
    }
  }

  /** Every tree of the forest has its ids in `ks` and is ranked. */
  ghost predicate ForestFits(roots: seq<CompiledNode>, ks: set<NodeId>, edges: seq<Edge>, rank: NodeId -> nat) {
    forall i | 0 <= i < |roots| :: TreeIds(roots[i]) <= ks && TreeRanked(roots[i], edges, rank)
  }

  lemma ForestFitsTail(roots: seq<CompiledNode>, ks: set<NodeId>, edges: seq<Edge>, rank: NodeId -> nat)
    requires roots != [] && ForestFits(roots, ks, edges, rank)
    ensures TreeIds(roots[0]) <= ks && TreeRanked(roots[0], edges, rank) && ForestFits(roots[1..], ks, edges, rank)
  {
    forall i | 0 <= i < |roots[1..]| ensures TreeIds(roots[1..][i]) <= ks && TreeRanked(roots[1..][i], edges, rank) {
      assert roots[1..][i] == roots[i + 1];
    }
  }

  lemma {:induction false} JoinAllKeepsJoinable(a: Arena, roots: seq<CompiledNode>, edges: seq<Edge>, rank: NodeId -> nat)
    requires ForestFits(roots, a.Keys, edges, rank) && Joinable(a, edges, rank)
    ensures Joinable(JoinAll(a, roots), edges, rank)
    decreases |roots|
  {
    if roots != [] {
      ForestFitsTail(roots, a.Keys, edges, rank);
      var a1 := Join(a, roots[0]);
      JoinKeepsJoinable(a, roots[0], edges, rank);
      JoinAllKeepsJoinable(a1, roots[1..], edges, rank);
    }
  }

  lemma {:induction false} JoinGrows(a: Arena, c: CompiledNode)
    requires TreeIds(c) <= a.Keys
    ensures Grows(a, Join(a, c))
    decreases c, 1
  {
    JoinChildrenGrows(a, c.id, c.children);
  }

  lemma {:induction false} JoinChildrenGrows(a: Arena, parentId: NodeId, cs: seq<CompiledChild>)
    requires parentId in a && ChildrenIds(cs) <= a.Keys
    ensures Grows(a, JoinChildren(a, parentId, cs))
    decreases cs, 0
  {
    if cs == [] {
      GrowsReflexive(a);
    } else {
      assert cs[0].node.id in TreeIds(cs[0].node);
      var a1 := AddChild(a, parentId, cs[0].node.id, cs[0].connections);
      AddChildGrows(a, parentId, cs[0].node.id, cs[0].connections);
      var a2 := Join(a1, cs[0].node);
      JoinGrows(a1, cs[0].node);
      JoinChildrenGrows(a2, parentId, cs[1..]);
      GrowsTransitive(a, a1, a2);
      GrowsTransitive(a, a2, JoinChildren(a, parentId, cs));
    }
  }

  lemma {:induction false} JoinAllGrows(a: Arena, roots: seq<CompiledNode>)
    requires forall i | 0 <= i < |roots| :: TreeIds(roots[i]) <= a.Keys
    ensures Grows(a, JoinAll(a, roots))
    decreases |roots|
  {
    if roots == [] {
      GrowsReflexive(a);
    } else {
      var a1 := Join(a, roots[0]);
      JoinGrows(a, roots[0]);
      assert forall i | 0 <= i < |roots[1..]| :: roots[1..][i] == roots[i + 1];
      JoinAllGrows(a1, roots[1..]);
      GrowsTransitive(a, a1, JoinAll(a, roots));
    }
  }

  /** Every parent/child pair of the compiled tree is linked: the child is among the parent's children. */
  ghost predicate TreeJoined(a: Arena, c: CompiledNode)
    decreases c, 1
  {
    ChildrenJoined(a, c.id, c.children)
  }

  ghost predicate ChildrenJoined(a: Arena, parentId: NodeId, cs: seq<CompiledChild>)
    decreases cs, 0
  {
    cs != [] ==>
      && parentId in a && HasChild(a[parentId], cs[0].node.id)
      && TreeJoined(a, cs[0].node)
      && ChildrenJoined(a, parentId, cs[1..])
  }

  lemma HasChildGrows(m: ExecNode, n: ExecNode, id: NodeId)
    requires m.children <= n.children && HasChild(m, id)
    ensures HasChild(n, id)
  {
    var i :| 0 <= i < |m.children| && m.children[i].node == id;
    assert n.children[i] == m.children[i];
  }

  lemma {:induction false} GrowsKeepsTreeJoined(a: Arena, b: Arena, c: CompiledNode)
    requires Grows(a, b) && TreeJoined(a, c)
    ensures TreeJoined(b, c)
    decreases c, 1
  {
    GrowsKeepsChildrenJoined(a, b, c.id, c.children);
  }

  lemma {:induction false} GrowsKeepsChildrenJoined(a: Arena, b: Arena, parentId: NodeId, cs: seq<CompiledChild>)
    requires Grows(a, b) && ChildrenJoined(a, parentId, cs)
    ensures ChildrenJoined(b, parentId, cs)
    decreases cs, 0
  {
    if cs != [] {
      assert GrowsNode(a[parentId], b[parentId]);
      HasChildGrows(a[parentId], b[parentId], cs[0].node.id);
      GrowsKeepsTreeJoined(a, b, cs[0].node);
      GrowsKeepsChildrenJoined(a, b, parentId, cs[1..]);
    }
  }

  /** After `recursivelyJoin(c)`, `addChild` has linked every parent/child pair of `c`. */
  lemma {:induction false} JoinLinksTree(a: Arena, c: CompiledNode)
    requires TreeIds(c) <= a.Keys
    ensures TreeJoined(Join(a, c), c)
    decreases c, 1
  {
    JoinChildrenLinks(a, c.id, c.children);
  }

  lemma {:induction false} JoinChildrenLinks(a: Arena, parentId: NodeId, cs: seq<CompiledChild>)
    requires parentId in a && ChildrenIds(cs) <= a.Keys
    ensures ChildrenJoined(JoinChildren(a, parentId, cs), parentId, cs)
    decreases cs, 0
  {
    if cs != [] {
      var child := cs[0].node;
      assert child.id in TreeIds(child);
      var a1 := AddChild(a, parentId, child.id, cs[0].connections);
      var a2 := Join(a1, child);
      var a3 := JoinChildren(a2, parentId, cs[1..]);
      JoinLinksTree(a1, child);
      JoinGrows(a1, child);
      JoinChildrenGrows(a2, parentId, cs[1..]);
      JoinChildrenLinks(a2, parentId, cs[1..]);
      assert GrowsNode(a1[parentId], a2[parentId]) && GrowsNode(a2[parentId], a3[parentId]);
      HasChildGrows(a1[parentId], a2[parentId], child.id);
      HasChildGrows(a2[parentId], a3[parentId], child.id);
      GrowsKeepsTreeJoined(a2, a3, child);
    }
  }

  /** After `roots.forEach(recursivelyJoin)`, every parent/child pair of every compiled tree is linked. */
  lemma {:induction false} JoinAllLinks(a: Arena, roots: seq<CompiledNode>, i: nat)
    requires forall j | 0 <= j < |roots| :: TreeIds(roots[j]) <= a.Keys
    requires i < |roots|
    ensures TreeJoined(JoinAll(a, roots), roots[i])
    decreases |roots|
  {
    var a1 := Join(a, roots[0]);
    assert forall j | 0 <= j < |roots[1..]| :: roots[1..][j] == roots[j + 1];
    if i == 0 {
      JoinLinksTree(a, roots[0]);
      JoinAllGrows(a1, roots[1..]);
      GrowsKeepsTreeJoined(a1, JoinAll(a1, roots[1..]), roots[0]);
    } else {
      JoinAllLinks(a1, roots[1..], i - 1);
    }
  }

  // ---------------------------------------------------------------------------------------------
  // The two passes over the roots

  /** The serialized node of executable node `id` has type `entrypoint`. */
  predicate IsEntrypoint(a: Arena, id: NodeId)
    requires id in a
  {
    a[id].serialized.nodeType == Entrypoint
  }

  /** `roots.filter(root => (executableNodeMap[root.id].getNode().type === 'entrypoint') == entry)`, as ids. */
  function RootIds(a: Arena, roots: seq<CompiledNode>, entry: bool): (r: seq<NodeId>)
    requires forall i | 0 <= i < |roots| :: roots[i].id in a
    ensures forall i | 0 <= i < |r| :: r[i] in a && IsEntrypoint(a, r[i]) == entry
    ensures forall i | 0 <= i < |roots| :: IsEntrypoint(a, roots[i].id) == entry ==> roots[i].id in r
    ensures forall id | id in r :: exists i | 0 <= i < |roots| :: roots[i].id == id
    ensures forall id | id in r :: id in a && IsEntrypoint(a, id) == entry
  {
    if roots == [] then []
    else
      var rest := RootIds(a, roots[1..], entry);
      assert forall i | 1 <= i < |roots| :: roots[i] == roots[1..][i - 1];
      (if IsEntrypoint(a, roots[0].id) == entry then [roots[0].id] else []) + rest
  }

  /** `for (const root of roots) await executableNodeMap[root.id].run([])`: stops at the first rejection. */
  function RunRoots(e: Engine, ids: seq<NodeId>, ghost rank: NodeId -> nat): (r: Step)
    requires WellFormed(e.nodes, rank) && forall i | 0 <= i < |ids| :: ids[i] in e.nodes
    ensures Evolves(e.nodes, r.engine.nodes) && e.trace <= r.engine.trace
    decreases |ids|
  {
    if ids == [] then Step(e, None)
    else
      var s := Run(e, ids[0], [], rank);
      if s.error.Some? then s
      else
        EvolvesWellFormed(e.nodes, s.engine.nodes, rank);
        var t := RunRoots(s.engine, ids[1..], rank);
        EvolvesTransitive(e.nodes, s.engine.nodes, t.engine.nodes);
        t
  }

  /** What `ExecuteFlow` ends with: its promise rejects, or it resolves after streaming `trace`, having caught `caught`. */
  datatype FlowOutcome =
    | Rejected
    | Finished(trace: seq<Event>, caught: Option<RunError>)

  /** Compilation, executable node creation and linking: the arena the passes run on, or nothing when a type is unknown. */
  function Prepare(reg: Registry, nodes: seq<SerializedNode>, edges: seq<Edge>, ghost rank: NodeId -> nat): (r: Option<(CompiledFlow, Arena)>)
    requires Ranked(nodes, edges, rank)
    ensures r.Some? <==> AllTypesKnown(reg, CompileFlow(nodes, edges, rank).serializedNodeMap)
    ensures r.Some? ==>
      && r.value.0 == CompileFlow(nodes, edges, rank)
      && r.value.1.Keys == r.value.0.serializedNodeMap.Keys
      && Joinable(r.value.1, edges, rank)
      && forall i | 0 <= i < |r.value.0.roots| :: r.value.0.roots[i].id in r.value.1
  {
    var flow := CompileFlow(nodes, edges, rank);
    CompileFlowWellFormed(nodes, edges, rank);
    match CreateExecutableNodeMap(reg, flow.serializedNodeMap)
    case None => None
    case Some(a0) =>
      FreshRegistered(a0);
      assert ForestFits(flow.roots, a0.Keys, edges, rank);
      JoinAllKeepsJoinable(a0, flow.roots, edges, rank);
      var a := JoinAll(a0, flow.roots);
      assert forall i | 0 <= i < |flow.roots| :: flow.roots[i].id in TreeIds(flow.roots[i]);
      Some((flow, a))
  }

  /** `ExecuteFlow`: the non-`entrypoint` roots, then the `entrypoint` roots, inside one `try` that swallows the first failure. */
  function ExecuteSpec(reg: Registry, nodes: seq<SerializedNode>, edges: seq<Edge>, ghost rank: NodeId -> nat): (r: FlowOutcome)
    requires Ranked(nodes, edges, rank)
  {
    match Prepare(reg, nodes, edges, rank)
    case None => Rejected
    case Some((flow, a)) => Passes(a, flow.roots, rank)
  }

  /** The two passes over the linked nodes, starting from an empty trace. */
  function Passes(a: Arena, roots: seq<CompiledNode>, ghost rank: NodeId -> nat): (r: FlowOutcome)
    requires WellFormed(a, rank) && forall i | 0 <= i < |roots| :: roots[i].id in a
    ensures r.Finished?
  {
    var first := RunRoots(Engine(a, []), RootIds(a, roots, false), rank);
    if first.error.Some? then Finished(first.engine.trace, first.error)
    else
      EvolvesWellFormed(a, first.engine.nodes, rank);
      var second := RunRoots(first.engine, RootIds(a, roots, true), rank);
      Finished(second.engine.trace, second.error)
  }

  /** How `Passes` goes on from the outcome of its first pass. */
  lemma PassesAfterFirst(a: Arena, roots: seq<CompiledNode>, rank: NodeId -> nat, first: Step)
    requires WellFormed(a, rank) && forall i | 0 <= i < |roots| :: roots[i].id in a
    requires first == RunRoots(Engine(a, []), RootIds(a, roots, false), rank)
    ensures first.error.Some? ==> Passes(a, roots, rank) == Finished(first.engine.trace, first.error)
    ensures first.error.None? ==> WellFormed(first.engine.nodes, rank)
    ensures first.error.None? ==> forall i | 0 <= i < |RootIds(a, roots, true)| :: RootIds(a, roots, true)[i] in first.engine.nodes
    ensures first.error.None? ==> var second := RunRoots(first.engine, RootIds(a, roots, true), rank);
      Passes(a, roots, rank) == Finished(second.engine.trace, second.error)
  {
    if first.error.None? {
      EvolvesWellFormed(a, first.engine.nodes, rank);
    }
  }

  /** The promise of `ExecuteFlow` rejects exactly when a compiled node has an unregistered type; then no node has run. */
  lemma ExecuteFlowRejectsIffTypeMissing(reg: Registry, nodes: seq<SerializedNode>, edges: seq<Edge>, rank: NodeId -> nat)
    requires Ranked(nodes, edges, rank)
    ensures ExecuteSpec(reg, nodes, edges, rank).Rejected? <==>
      exists id | id in CompileFlow(nodes, edges, rank).serializedNodeMap ::
        CompileFlow(nodes, edges, rank).serializedNodeMap[id].nodeType !in reg
  {
  }

  /** Running `a + b` in order is running `a`, then, unless one of those failed, `b`. */
  lemma {:induction false} RunRootsConcat(e: Engine, a: seq<NodeId>, b: seq<NodeId>, rank: NodeId -> nat)
    requires WellFormed(e.nodes, rank)
    requires forall i | 0 <= i < |a| :: a[i] in e.nodes
    requires forall i | 0 <= i < |b| :: b[i] in e.nodes
    ensures var s := RunRoots(e, a, rank);
      && WellFormed(s.engine.nodes, rank) && (forall i | 0 <= i < |b| :: b[i] in s.engine.nodes)
      && RunRoots(e, a + b, rank) == if s.error.Some? then s else RunRoots(s.engine, b, rank)
    decreases |a|
  {
    var s := RunRoots(e, a, rank);
    EvolvesWellFormed(e.nodes, s.engine.nodes, rank);
    if a == [] {
      assert a + b == b;
    } else {
      assert (a + b)[0] == a[0] && (a + b)[1..] == a[1..] + b;
      var s0 := Run(e, a[0], [], rank);
      if s0.error.None? {
        EvolvesWellFormed(e.nodes, s0.engine.nodes, rank);
        RunRootsConcat(s0.engine, a[1..], b, rank);
      }
    }
  }

  /** A root's failure ends the pass: no later root of the list runs, and the failure is the pass's. */
  lemma RunRootsStopsAtFailure(e: Engine, ids: seq<NodeId>, k: nat, rank: NodeId -> nat)
    requires WellFormed(e.nodes, rank) && (forall i | 0 <= i < |ids| :: ids[i] in e.nodes) && k < |ids|
    requires RunRoots(e, ids[..k], rank).error.None?
    ensures var s := RunRoots(e, ids[..k], rank);
      && WellFormed(s.engine.nodes, rank) && ids[k] in s.engine.nodes
      && (Run(s.engine, ids[k], [], rank).error.Some? ==> RunRoots(e, ids, rank) == Run(s.engine, ids[k], [], rank))
  {
    assert ids == ids[..k] + ids[k..];
    RunRootsConcat(e, ids[..k], ids[k..], rank);
    assert ids[k..][0] == ids[k];
  }

  /**
   * The two loops inside the one `try` are one run over the non-`entrypoint` roots followed by the
   * `entrypoint` roots, stopped by the first failure, which is caught and not rethrown.
   */
  lemma ExecuteFlowIsOnePass(reg: Registry, nodes: seq<SerializedNode>, edges: seq<Edge>, rank: NodeId -> nat)
    requires Ranked(nodes, edges, rank) && AllTypesKnown(reg, CompileFlow(nodes, edges, rank).serializedNodeMap)
    ensures var (flow, a) := Prepare(reg, nodes, edges, rank).value;
      var s := RunRoots(Engine(a, []), RootIds(a, flow.roots, false) + RootIds(a, flow.roots, true), rank);
      ExecuteSpec(reg, nodes, edges, rank) == Finished(s.engine.trace, s.error)
  {
    var (flow, a) := Prepare(reg, nodes, edges, rank).value;
    RunRootsConcat(Engine(a, []), RootIds(a, flow.roots, false), RootIds(a, flow.roots, true), rank);
  }

  /** Starting at nodes of a set closed under children, the runs of a pass stream statuses only for nodes of that set. */
  lemma {:induction false} RunRootsWithin(e: Engine, ids: seq<NodeId>, rank: NodeId -> nat, within: set<NodeId>)
    requires WellFormed(e.nodes, rank) && forall i | 0 <= i < |ids| :: ids[i] in e.nodes && ids[i] in within
    requires ClosedUnder(e.nodes, within)
    ensures StatusesWithin(RunRoots(e, ids, rank).engine.trace[|e.trace|..], within)
    decreases |ids|
  {
    var r := RunRoots(e, ids, rank);
    if ids == [] {
      assert r.engine.trace[|e.trace|..] == [];
    } else {
      var s := Run(e, ids[0], [], rank);
      RunWithin(e, ids[0], [], rank, within);
      if s.error.None? {
        EvolvesWellFormed(e.nodes, s.engine.nodes, rank);
        EvolvesClosed(e.nodes, s.engine.nodes, within);
        RunRootsWithin(s.engine, ids[1..], rank, within);
        SegmentsWithin(e.trace, s.engine.trace, r.engine.trace, within);
      }
    }
  }

  /** A compiled root is never the target of an edge, so it is never anybody's child. */
  lemma CompiledRootsAreNotTargets(nodes: seq<SerializedNode>, edges: seq<Edge>, rank: NodeId -> nat, i: nat)
    requires Ranked(nodes, edges, rank) && i < |CompileFlow(nodes, edges, rank).roots|
    ensures !IsTarget(edges, CompileFlow(nodes, edges, rank).roots[i].id)
  {
    assert Roots(nodes, edges)[i] in Roots(nodes, edges);
  }

  /** Over roots nobody links to, the non-`entrypoint` pass streams no status of an `entrypoint` root. */
  lemma FirstPassSkipsEntrypoints(a: Arena, roots: seq<CompiledNode>, edges: seq<Edge>, rank: NodeId -> nat)
    requires Joinable(a, edges, rank)
    requires forall j | 0 <= j < |roots| :: roots[j].id in a && !IsTarget(edges, roots[j].id)
    ensures var first := RunRoots(Engine(a, []), RootIds(a, roots, false), rank);
      forall id | id in RootIds(a, roots, true) :: StatusesOf(first.engine.trace, id) == []
  {
    var entries := RootIds(a, roots, true);
    var others := RootIds(a, roots, false);
    var within := set id | id in a && (IsTarget(edges, id) || !IsEntrypoint(a, id));
    LinksStayWithin(a, edges, rank, within);
    RunRootsWithin(Engine(a, []), others, rank, within);
    forall id | id in entries ensures id !in within {
      var j :| 0 <= j < |roots| && roots[j].id == id;
    }
    StatusesOutsideFromStart(RunRoots(Engine(a, []), others, rank).engine.trace, within, entries);
  }

  /** Every link ends at an edge target, so a set holding every edge target of the arena is closed under links. */
  lemma LinksStayWithin(a: Arena, edges: seq<Edge>, rank: NodeId -> nat, within: set<NodeId>)
    requires Targeted(a, edges) && WellFormed(a, rank)
    requires forall id | id in a && IsTarget(edges, id) :: id in within
    ensures ClosedUnder(a, within)
  {
    forall id, i | id in a && id in within && 0 <= i < |a[id].children| ensures a[id].children[i].node in within {
      assert ChildrenBelow(a, a[id].children, rank(id), rank);
      assert IsTarget(edges, a[id].children[i].node);
    }
  }

  /** The statuses of a trace that starts the run stay within the ids it was confined to. */
  lemma StatusesOutsideFromStart(t: seq<Event>, within: set<NodeId>, entries: seq<NodeId>)
    requires StatusesWithin(t[0..], within)
    requires forall id | id in entries :: id !in within
    ensures forall id | id in entries :: StatusesOf(t, id) == []
  {
    assert t[0..] == t;
    forall id | id in entries ensures StatusesOf(t, id) == [] {
      NoStatusesOutside(t, within, id);
    }
  }

  /**
   * The `entrypoint` roots run after everything else: while the first pass runs, no status of an
   * `entrypoint` root is streamed, and what the first pass streams opens the flow's trace.
   */
  lemma EntrypointRootsRunLast(reg: Registry, nodes: seq<SerializedNode>, edges: seq<Edge>, rank: NodeId -> nat)
    requires Ranked(nodes, edges, rank) && AllTypesKnown(reg, CompileFlow(nodes, edges, rank).serializedNodeMap)
    ensures var (flow, a) := Prepare(reg, nodes, edges, rank).value;
      var first := RunRoots(Engine(a, []), RootIds(a, flow.roots, false), rank);
      var out := ExecuteSpec(reg, nodes, edges, rank);
      && out.Finished? && first.engine.trace <= out.trace
      && (first.error.Some? ==> out == Finished(first.engine.trace, first.error))
      && forall id | id in RootIds(a, flow.roots, true) :: StatusesOf(first.engine.trace, id) == []
  {
    var (flow, a) := Prepare(reg, nodes, edges, rank).value;
    forall j | 0 <= j < |flow.roots| ensures !IsTarget(edges, flow.roots[j].id) {
      CompiledRootsAreNotTargets(nodes, edges, rank, j);
    }
    FirstPassSkipsEntrypoints(a, flow.roots, edges, rank);
  }

  // ---------------------------------------------------------------------------------------------
  // The runtime as the source writes it

  /** One root of a pass: its run, then the rest of the pass unless it failed. */
  lemma RunRootsStep(e: Engine, ids: seq<NodeId>, rank: NodeId -> nat)
    requires WellFormed(e.nodes, rank) && (forall i | 0 <= i < |ids| :: ids[i] in e.nodes) && ids != []
    ensures var s := Run(e, ids[0], [], rank);
      && WellFormed(s.engine.nodes, rank) && (forall i | 0 <= i < |ids[1..]| :: ids[1..][i] in s.engine.nodes)
      && RunRoots(e, ids, rank) == if s.error.Some? then s else RunRoots(s.engine, ids[1..], rank)
  {
    var s := Run(e, ids[0], [], rank);
    EvolvesWellFormed(e.nodes, s.engine.nodes, rank);
  }

  /** `recursivelyJoin(parent)` on the executable node map. */
  method RecursivelyJoin(exec: ExecutableNodeMap, parent: CompiledNode)
    requires TreeIds(parent) <= exec.nodes.Keys
    modifies exec
    ensures exec.nodes == Join(old(exec.nodes), parent) && exec.trace == old(exec.trace)
    decreases parent
  {
    ghost var whole := Join(exec.nodes, parent);
    var cs := parent.children;
    var k := 0;
    assert cs[k..] == cs;
    while k < |cs|
      invariant 0 <= k <= |cs| && exec.nodes.Keys == old(exec.nodes).Keys && exec.trace == old(exec.trace)
      invariant ChildrenIds(cs[k..]) <= exec.nodes.Keys
      invariant JoinChildren(exec.nodes, parent.id, cs[k..]) == whole
    {
      assert cs[k..][0] == cs[k] && cs[k..][1..] == cs[k + 1..];
      assert cs[k] in cs;
      assert cs[k].node.id in TreeIds(cs[k].node);
      exec.AddChild(parent.id, cs[k].node.id, cs[k].connections);
      RecursivelyJoin(exec, cs[k].node);
      k := k + 1;
    }
  }

  /** `for (const root of roots) await executableNodeMap[root.id].run([])`. */
  method RunPass(exec: ExecutableNodeMap, ids: seq<NodeId>, ghost rank: NodeId -> nat) returns (err: Option<RunError>)
    requires WellFormed(exec.nodes, rank) && forall i | 0 <= i < |ids| :: ids[i] in exec.nodes
    modifies exec
    ensures RunRoots(old(exec.State()), ids, rank) == Step(exec.State(), err)
  {
    ghost var whole := RunRoots(exec.State(), ids, rank);
    err := None;
    var k := 0;
    while k < |ids| && err.None?
      invariant 0 <= k <= |ids|
      invariant err.None? ==>
        && WellFormed(exec.nodes, rank) && (forall i | 0 <= i < |ids[k..]| :: ids[k..][i] in exec.nodes)
        && whole == RunRoots(exec.State(), ids[k..], rank)
      invariant err.Some? ==> whole == Step(exec.State(), err)
      decreases |ids| - k
    {
      RunRootsStep(exec.State(), ids[k..], rank);
      assert ids[k..][0] == ids[k] && ids[k..][1..] == ids[k + 1..];
      err := exec.Run(ids[k], [], rank);
      k := k + 1;
    }
  }

  /** `roots.forEach(recursivelyJoin)`. */
  method JoinRoots(exec: ExecutableNodeMap, roots: seq<CompiledNode>)
    requires forall i | 0 <= i < |roots| :: TreeIds(roots[i]) <= exec.nodes.Keys
    modifies exec
    ensures exec.nodes == JoinAll(old(exec.nodes), roots) && exec.trace == old(exec.trace)
  {
    ghost var whole := JoinAll(exec.nodes, roots);
    var i := 0;
    while i < |roots|
      invariant 0 <= i <= |roots| && exec.nodes.Keys == old(exec.nodes).Keys && exec.trace == old(exec.trace)
      invariant JoinAll(exec.nodes, roots[i..]) == whole
    {
      assert roots[i..][0] == roots[i] && roots[i..][1..] == roots[i + 1..];
      RecursivelyJoin(exec, roots[i]);
      i := i + 1;
    }
    assert roots[i..] == [];
  }

  /** What `ExecuteSpec` is once every type is known: the passes over the linked fresh nodes. */
  lemma ExecuteSpecKnown(reg: Registry, nodes: seq<SerializedNode>, edges: seq<Edge>, rank: NodeId -> nat)
    requires Ranked(nodes, edges, rank) && AllTypesKnown(reg, CompileFlow(nodes, edges, rank).serializedNodeMap)
    ensures var flow := CompileFlow(nodes, edges, rank);
      var created := CreateExecutableNodeMap(reg, flow.serializedNodeMap);
      && created.Some?
      && (forall i | 0 <= i < |flow.roots| :: TreeIds(flow.roots[i]) <= created.value.Keys)
      && var a := JoinAll(created.value, flow.roots);
      && Prepare(reg, nodes, edges, rank) == Some((flow, a))
      && WellFormed(a, rank) && (forall i | 0 <= i < |flow.roots| :: flow.roots[i].id in a)
  {
    CompileFlowWellFormed(nodes, edges, rank);
  }

  class FlowRuntime {
    /** `sgNodeMap`: the registered node definitions by type. */
    var sgNodeMap: Registry

    constructor ()
      ensures sgNodeMap == map[]
    {
      sgNodeMap := map[];
    }

    /** `setSGNodes`: the map is cleared, then each definition is stored under its type, later ones overwriting. */
    method SetSGNodes(defs: seq<NodeDefinition>)
      modifies this
      ensures sgNodeMap == LastByType(defs)
    {
      sgNodeMap := map[];
      var i := 0;
      while i < |defs|
        invariant 0 <= i <= |defs| && sgNodeMap == LastByType(defs[..i])
      {
        assert defs[..i + 1][..i] == defs[..i];
        sgNodeMap := sgNodeMap[defs[i].nodeType := defs[i]];
        i := i + 1;
      }
      assert defs[..i] == defs;
    }

    /** `CompileFlow` of the runtime. */
    method CompileFlow(nodes: seq<SerializedNode>, edges: seq<Edge>, ghost rank: NodeId -> nat) returns (flow: CompiledFlow)
      requires Ranked(nodes, edges, rank)
      ensures flow == FlowCompiler.CompileFlow(nodes, edges, rank)
    {
      var serializedNodeMap := new NodeMapBuilder();
      var roots := Roots(nodes, edges);
      var trees := serializedNodeMap.BuildAll(nodes, edges, roots, rank);
      flow := CompiledFlow(trees, serializedNodeMap.entries);
    }

    /**
     * `ExecuteFlow`: compile, create the executable nodes (rejecting on an unknown type), link the
     * trees, then run the non-`entrypoint` roots and the `entrypoint` roots, catching the first failure.
     */
    method ExecuteFlow(nodes: seq<SerializedNode>, edges: seq<Edge>, ghost rank: NodeId -> nat) returns (outcome: FlowOutcome)
      requires Ranked(nodes, edges, rank)
      ensures outcome == ExecuteSpec(sgNodeMap, nodes, edges, rank)
    {
      var flow := CompileFlow(nodes, edges, rank);
      var created := CreateExecutableNodeMap(sgNodeMap, flow.serializedNodeMap);
      if created.None? {
        return Rejected;
      }
      ExecuteSpecKnown(sgNodeMap, nodes, edges, rank);
      var exec := new ExecutableNodeMap(created.value);
      JoinRoots(exec, flow.roots);
      ghost var a := exec.nodes;
      assert ExecuteSpec(sgNodeMap, nodes, edges, rank) == Passes(a, flow.roots, rank);
      var nonTriggers := RootIds(exec.nodes, flow.roots, false);
      var triggers := RootIds(exec.nodes, flow.roots, true);
      assert exec.State() == Engine(a, []);
      var err := RunPass(exec, nonTriggers, rank);
      PassesAfterFirst(a, flow.roots, rank, Step(exec.State(), err));
      if err.None? {
        err := RunPass(exec, triggers, rank);
      }
      outcome := Finished(exec.trace, err);
    }
  }
}
