/**
 * The graph compiler of the flow runtime (`FlowRuntime.CompileFlow`): a flat node list and edge
 * list become the root nodes, a recursive tree of children, and an id -> node map that is filled
 * while the tree is built.
 */
module FlowCompiler {
  import opened Types

  datatype CompiledNode = CompiledNode(id: NodeId, children: seq<CompiledChild>)

  datatype CompiledChild = CompiledChild(node: CompiledNode, connections: seq<Edge>)

  datatype CompiledFlow = CompiledFlow(roots: seq<CompiledNode>, serializedNodeMap: map<NodeId, SerializedNode>)

  type NodeMap = map<NodeId, SerializedNode>

  /** Some edge ends at `id` (`edges.some(edge => edge.target === id)`). */
  predicate IsTarget(edges: seq<Edge>, id: NodeId) {
    exists e | e in edges :: e.target == id
  }

  predicate IsNodeId(nodes: seq<SerializedNode>, id: NodeId) {
    exists n | n in nodes :: n.id == id
  }

  /**
   * The acyclicity precondition: `rank` is a topological ranking, so every edge between two
   * nodes of the flow goes from a higher rank to a strictly lower one. The source has no cycle
   * check. A cycle that a root reaches makes its recursion overflow the stack; a cycle that no
   * root reaches is never visited, since its nodes are all edge targets. This predicate covers
   * every edge, so it excludes both kinds of flow.
   */
  ghost predicate Ranked(nodes: seq<SerializedNode>, edges: seq<Edge>, rank: NodeId -> nat) {
    forall e | e in edges && IsNodeId(nodes, e.source) && IsNodeId(nodes, e.target) ::
      rank(e.target) < rank(e.source)
  }

  /** The nodes that no edge targets, in input order. */
  function Roots(nodes: seq<SerializedNode>, edges: seq<Edge>): (r: seq<SerializedNode>)
    ensures forall n :: n in r <==> n in nodes && !IsTarget(edges, n.id)
    ensures |r| <= |nodes|
  {
    if nodes == [] then []
    else (if IsTarget(edges, nodes[0].id) then [] else [nodes[0]]) + Roots(nodes[1..], edges)
  }

  /** The edges leaving `source`, in edge order. */
  function OutgoingEdges(edges: seq<Edge>, source: NodeId): (r: seq<Edge>)
    ensures forall e :: e in r <==> e in edges && e.source == source
  {
    if edges == [] then []
    else (if edges[0].source == source then [edges[0]] else []) + OutgoingEdges(edges[1..], source)
  }

  /** The edges of `conns` that end at `target`, in edge order. */
  function EdgesTo(conns: seq<Edge>, target: NodeId): (r: seq<Edge>)
    ensures forall e :: e in r <==> e in conns && e.target == target
  {
    if conns == [] then []
    else (if conns[0].target == target then [conns[0]] else []) + EdgesTo(conns[1..], target)
  }

  /** The nodes of `nodes` that some edge of `conns` ends at, in node order. */
  function TargetedNodes(nodes: seq<SerializedNode>, conns: seq<Edge>): (r: seq<SerializedNode>)
    ensures forall n :: n in r <==> n in nodes && IsTarget(conns, n.id)
  {
    if nodes == [] then []
    else (if IsTarget(conns, nodes[0].id) then [nodes[0]] else []) + TargetedNodes(nodes[1..], conns)
  }

  /** There is an edge from node `a` to node `b`. */
  predicate Step(edges: seq<Edge>, a: SerializedNode, b: SerializedNode) {
    exists e | e in edges :: e.source == a.id && e.target == b.id
  }

  /** The children of `parent`: nodes of the flow targeted by an edge that leaves `parent`. */
  function ChildNodes(nodes: seq<SerializedNode>, edges: seq<Edge>, parent: SerializedNode): (r: seq<SerializedNode>)
    ensures forall n :: n in r <==> n in nodes && Step(edges, parent, n)
  {
    var conns := OutgoingEdges(edges, parent.id);
    assert forall n: SerializedNode :: IsTarget(conns, n.id) <==> Step(edges, parent, n) by {
      forall n: SerializedNode ensures IsTarget(conns, n.id) <==> Step(edges, parent, n) {
        if Step(edges, parent, n) {
          var e :| e in edges && e.source == parent.id && e.target == n.id;
          assert e in conns;
        }
      }
    }
    TargetedNodes(nodes, conns)
  }

  /** A compiled node's children are ranked strictly below it and are targets of edges, all the way down. */
  ghost predicate TreeRanked(c: CompiledNode, edges: seq<Edge>, rank: NodeId -> nat)
    decreases c, 1
  {
    ChildrenRanked(c.id, c.children, edges, rank)
  }

  ghost predicate ChildrenRanked(parent: NodeId, cs: seq<CompiledChild>, edges: seq<Edge>, rank: NodeId -> nat)
    decreases cs, 0
  {
    cs != [] ==>
      && rank(cs[0].node.id) < rank(parent)
      && IsTarget(edges, cs[0].node.id)
      && TreeRanked(cs[0].node, edges, rank)
      && ChildrenRanked(parent, cs[1..], edges, rank)
  }

  /** The ids that occur in a compiled tree. */
  function TreeIds(c: CompiledNode): set<NodeId>
    decreases c, 1
  {
    {c.id} + ChildrenIds(c.children)
  }

  function ChildrenIds(cs: seq<CompiledChild>): set<NodeId>
    decreases cs, 0
  {
    if cs == [] then {} else TreeIds(cs[0].node) + ChildrenIds(cs[1..])
  }

  /** Every entry of `m` maps an id to a node of the flow carrying that id. */
  ghost predicate MapOfNodes(m: NodeMap, nodes: seq<SerializedNode>) {
    forall id | id in m :: m[id] in nodes && m[id].id == id
  }

  /** The map `m'` extends `m` without changing an entry: the first registration of an id wins. */
  ghost predicate Extends(m: NodeMap, m': NodeMap) {
    m.Keys <= m'.Keys && forall id | id in m :: m'[id] == m[id]
  }

  /** The children of a node of the flow are nodes of the flow, edge targets, and ranked below it. */
  lemma ChildNodesRanked(nodes: seq<SerializedNode>, edges: seq<Edge>, parent: SerializedNode, rank: NodeId -> nat)
    requires parent in nodes && Ranked(nodes, edges, rank)
    ensures forall k | k in ChildNodes(nodes, edges, parent) ::
      k in nodes && rank(k.id) < rank(parent.id) && IsTarget(edges, k.id)
  {
    forall k | k in ChildNodes(nodes, edges, parent)
      ensures k in nodes && rank(k.id) < rank(parent.id) && IsTarget(edges, k.id)
    {
      var e :| e in edges && e.source == parent.id && e.target == k.id;
      assert IsNodeId(nodes, e.source) && IsNodeId(nodes, e.target);
    }
  }

  lemma ExtendsTransitive(m1: NodeMap, m2: NodeMap, m3: NodeMap)
    requires Extends(m1, m2) && Extends(m2, m3)
    ensures Extends(m1, m3)
  {
  }

  /**
   * `build(parent)`: registers `parent` unless its id is already in the map, then builds one child
   * entry per targeted node in node order, threading the map through the recursive calls.
   * Its properties are stated by the lemmas below.
   */
  function Build(nodes: seq<SerializedNode>, edges: seq<Edge>, parent: SerializedNode, m: NodeMap, ghost rank: NodeId -> nat): (r: (CompiledNode, NodeMap))
    requires parent in nodes && Ranked(nodes, edges, rank)
    ensures r.0.id == parent.id
    decreases rank(parent.id), 1, 0
  {
    var m1 := if parent.id in m then m else m[parent.id := parent];
    ChildNodesRanked(nodes, edges, parent, rank);
    var r := BuildChildren(nodes, edges, parent.id, OutgoingEdges(edges, parent.id), ChildNodes(nodes, edges, parent), m1, rank);
    (CompiledNode(parent.id, r.0), r.1)
  }

  /** `childNodes.map(node => ({node: build(node), connections: ...}))`, in order. */
  function BuildChildren(nodes: seq<SerializedNode>, edges: seq<Edge>, ghost parentId: NodeId, conns: seq<Edge>,
                         kids: seq<SerializedNode>, m: NodeMap, ghost rank: NodeId -> nat): (r: (seq<CompiledChild>, NodeMap))
    requires Ranked(nodes, edges, rank)
    requires forall k | k in kids :: k in nodes && rank(k.id) < rank(parentId) && IsTarget(edges, k.id)
    ensures |r.0| == |kids|
    decreases rank(parentId), 0, |kids|
  {
    if kids == [] then ([], m)
    else
      var (c, m1) := Build(nodes, edges, kids[0], m, rank);
      var (rest, m2) := BuildChildren(nodes, edges, parentId, conns, kids[1..], m1, rank);
      ([CompiledChild(c, EdgesTo(conns, kids[0].id))] + rest, m2)
  }

  /** `roots.map(build)`, in order, sharing one map. */
  function BuildAll(nodes: seq<SerializedNode>, edges: seq<Edge>, roots: seq<SerializedNode>, m: NodeMap, ghost rank: NodeId -> nat): (r: (seq<CompiledNode>, NodeMap))
    requires Ranked(nodes, edges, rank)
    requires forall n | n in roots :: n in nodes
    ensures |r.0| == |roots|
  {
    if roots == [] then ([], m)
    else
      var (c, m1) := Build(nodes, edges, roots[0], m, rank);
      var (rest, m2) := BuildAll(nodes, edges, roots[1..], m1, rank);
      ([c] + rest, m2)
  }

  /** `compileFlow`: one tree per root, in node order, and the map the trees filled. */
  function CompileFlow(nodes: seq<SerializedNode>, edges: seq<Edge>, ghost rank: NodeId -> nat): (r: CompiledFlow)
    requires Ranked(nodes, edges, rank)
    ensures |r.roots| == |Roots(nodes, edges)|
    ensures forall i | 0 <= i < |r.roots| :: r.roots[i].id == Roots(nodes, edges)[i].id
  {
    var roots := Roots(nodes, edges);
    var r := BuildAll(nodes, edges, roots, map[], rank);
    assert forall i | 0 <= i < |roots| :: r.0[i].id == roots[i].id by {
      BuildAllIds(nodes, edges, roots, map[], rank);
    }
    CompiledFlow(r.0, r.1)
  }

  lemma {:induction false} BuildAllIds(nodes: seq<SerializedNode>, edges: seq<Edge>, roots: seq<SerializedNode>, m: NodeMap, rank: NodeId -> nat)
    requires Ranked(nodes, edges, rank)
    requires forall n | n in roots :: n in nodes
    ensures forall i | 0 <= i < |roots| :: BuildAll(nodes, edges, roots, m, rank).0[i].id == roots[i].id
  {
    if roots != [] {
      var b := Build(nodes, edges, roots[0], m, rank);
      BuildAllIds(nodes, edges, roots[1..], b.1, rank);
    }
  }

  /**
   * The map only grows and keeps every entry (the first registration of an id wins), maps each id
   * to a node of the flow with that id, and holds the id of every node in the built tree.
   */
  lemma {:induction false} BuildMap(nodes: seq<SerializedNode>, edges: seq<Edge>, parent: SerializedNode, m: NodeMap, rank: NodeId -> nat)
    requires parent in nodes && Ranked(nodes, edges, rank) && MapOfNodes(m, nodes)
    ensures var r := Build(nodes, edges, parent, m, rank);
      MapOfNodes(r.1, nodes) && Extends(m, r.1) && parent.id in r.1 && TreeIds(r.0) <= r.1.Keys
    decreases rank(parent.id), 1, 0
  {
    var m1 := if parent.id in m then m else m[parent.id := parent];
    ChildNodesRanked(nodes, edges, parent, rank);
    BuildChildrenMap(nodes, edges, parent.id, OutgoingEdges(edges, parent.id), ChildNodes(nodes, edges, parent), m1, rank);
    var r := BuildChildren(nodes, edges, parent.id, OutgoingEdges(edges, parent.id), ChildNodes(nodes, edges, parent), m1, rank);
    assert Build(nodes, edges, parent, m, rank) == (CompiledNode(parent.id, r.0), r.1);
    assert Extends(m, m1) && parent.id in m1;
    ExtendsTransitive(m, m1, r.1);
  }

  lemma {:induction false} BuildChildrenMap(nodes: seq<SerializedNode>, edges: seq<Edge>, parentId: NodeId, conns: seq<Edge>,
                                            kids: seq<SerializedNode>, m: NodeMap, rank: NodeId -> nat)
    requires Ranked(nodes, edges, rank) && MapOfNodes(m, nodes)
    requires forall k | k in kids :: k in nodes && rank(k.id) < rank(parentId) && IsTarget(edges, k.id)
    ensures var r := BuildChildren(nodes, edges, parentId, conns, kids, m, rank);
      MapOfNodes(r.1, nodes) && Extends(m, r.1) && ChildrenIds(r.0) <= r.1.Keys
    decreases rank(parentId), 0, |kids|
  {
    if kids != [] {
      var b := Build(nodes, edges, kids[0], m, rank);
      BuildMap(nodes, edges, kids[0], m, rank);
      BuildChildrenMap(nodes, edges, parentId, conns, kids[1..], b.1, rank);
      var rest := BuildChildren(nodes, edges, parentId, conns, kids[1..], b.1, rank);
      ExtendsTransitive(m, b.1, rest.1);
    }
  }

  lemma {:induction false} BuildAllMap(nodes: seq<SerializedNode>, edges: seq<Edge>, roots: seq<SerializedNode>, m: NodeMap, rank: NodeId -> nat)
    requires Ranked(nodes, edges, rank) && MapOfNodes(m, nodes)
    requires forall n | n in roots :: n in nodes
    ensures var r := BuildAll(nodes, edges, roots, m, rank);
      && MapOfNodes(r.1, nodes) && Extends(m, r.1)
      && forall i | 0 <= i < |roots| :: TreeIds(r.0[i]) <= r.1.Keys
  {
    if roots != [] {
      var b := Build(nodes, edges, roots[0], m, rank);
      BuildMap(nodes, edges, roots[0], m, rank);
      BuildAllMap(nodes, edges, roots[1..], b.1, rank);
      var rest := BuildAll(nodes, edges, roots[1..], b.1, rank);
      ExtendsTransitive(m, b.1, rest.1);
    }
  }

  /** Every child in a built tree is ranked below its parent and is the target of some edge. */
  lemma {:induction false} BuildRanked(nodes: seq<SerializedNode>, edges: seq<Edge>, parent: SerializedNode, m: NodeMap, rank: NodeId -> nat)
    requires parent in nodes && Ranked(nodes, edges, rank)
    ensures TreeRanked(Build(nodes, edges, parent, m, rank).0, edges, rank)
    decreases rank(parent.id), 1, 0
  {
    var m1 := if parent.id in m then m else m[parent.id := parent];
    ChildNodesRanked(nodes, edges, parent, rank);
    BuildChildrenRanked(nodes, edges, parent.id, OutgoingEdges(edges, parent.id), ChildNodes(nodes, edges, parent), m1, rank);
  }

  lemma {:induction false} BuildChildrenRanked(nodes: seq<SerializedNode>, edges: seq<Edge>, parentId: NodeId, conns: seq<Edge>,
                                               kids: seq<SerializedNode>, m: NodeMap, rank: NodeId -> nat)
    requires Ranked(nodes, edges, rank)
    requires forall k | k in kids :: k in nodes && rank(k.id) < rank(parentId) && IsTarget(edges, k.id)
    ensures ChildrenRanked(parentId, BuildChildren(nodes, edges, parentId, conns, kids, m, rank).0, edges, rank)
    decreases rank(parentId), 0, |kids|
  {
    if kids != [] {
      var b := Build(nodes, edges, kids[0], m, rank);
      BuildRanked(nodes, edges, kids[0], m, rank);
      BuildChildrenRanked(nodes, edges, parentId, conns, kids[1..], b.1, rank);
    }
  }

  /**
   * The children of `build(parent)` are the children of `parent` in node order, and each child's
   * connections are exactly the edges from `parent` to it.
   */
  lemma BuildChildrenShape(nodes: seq<SerializedNode>, edges: seq<Edge>, parent: SerializedNode, m: NodeMap, rank: NodeId -> nat)
    requires parent in nodes && Ranked(nodes, edges, rank)
    ensures var c := Build(nodes, edges, parent, m, rank).0;
      && |c.children| == |ChildNodes(nodes, edges, parent)|
      && forall i | 0 <= i < |c.children| ::
        && c.children[i].node.id == ChildNodes(nodes, edges, parent)[i].id
        && (forall e :: e in c.children[i].connections <==> e in edges && e.source == parent.id && e.target == c.children[i].node.id)
  {
    var m1 := if parent.id in m then m else m[parent.id := parent];
    var kids := ChildNodes(nodes, edges, parent);
    ChildNodesRanked(nodes, edges, parent, rank);
    BuildChildrenConnections(nodes, edges, parent.id, OutgoingEdges(edges, parent.id), kids, m1, rank);
  }

  lemma {:induction false} BuildChildrenConnections(nodes: seq<SerializedNode>, edges: seq<Edge>, parentId: NodeId, conns: seq<Edge>,
                                                    kids: seq<SerializedNode>, m: NodeMap, rank: NodeId -> nat)
    requires Ranked(nodes, edges, rank)
    requires forall k | k in kids :: k in nodes && rank(k.id) < rank(parentId) && IsTarget(edges, k.id)
    ensures var r := BuildChildren(nodes, edges, parentId, conns, kids, m, rank).0;
      forall i | 0 <= i < |kids| :: r[i].node.id == kids[i].id && r[i].connections == EdgesTo(conns, kids[i].id)
  {
    if kids != [] {
      var b := Build(nodes, edges, kids[0], m, rank);
      BuildChildrenConnections(nodes, edges, parentId, conns, kids[1..], b.1, rank);
    }
  }

  /** The facts about a compiled flow that executing it relies on. */
  lemma CompileFlowWellFormed(nodes: seq<SerializedNode>, edges: seq<Edge>, rank: NodeId -> nat)
    requires Ranked(nodes, edges, rank)
    ensures var r := CompileFlow(nodes, edges, rank);
      && MapOfNodes(r.serializedNodeMap, nodes)
      && forall i | 0 <= i < |r.roots| :: TreeIds(r.roots[i]) <= r.serializedNodeMap.Keys && TreeRanked(r.roots[i], edges, rank)
  {
    var roots := Roots(nodes, edges);
    BuildAllMap(nodes, edges, roots, map[], rank);
    BuildAllRanked(nodes, edges, roots, map[], rank);
  }

  lemma {:induction false} BuildAllRanked(nodes: seq<SerializedNode>, edges: seq<Edge>, roots: seq<SerializedNode>, m: NodeMap, rank: NodeId -> nat)
    requires Ranked(nodes, edges, rank)
    requires forall n | n in roots :: n in nodes
    ensures var r := BuildAll(nodes, edges, roots, m, rank).0;
      forall i | 0 <= i < |roots| :: TreeRanked(r[i], edges, rank)
  {
    if roots != [] {
      var b := Build(nodes, edges, roots[0], m, rank);
      BuildRanked(nodes, edges, roots[0], m, rank);
      BuildAllRanked(nodes, edges, roots[1..], b.1, rank);
      var r := BuildAll(nodes, edges, roots, m, rank).0;
      assert r == [b.0] + BuildAll(nodes, edges, roots[1..], b.1, rank).0;
    }
  }

  /** Roots are computed node by node: the filter distributes over concatenation, so input order is kept. */
  lemma {:induction false} RootsConcat(a: seq<SerializedNode>, b: seq<SerializedNode>, edges: seq<Edge>)
    ensures Roots(a + b, edges) == Roots(a, edges) + Roots(b, edges)
  {
    if a == [] {
      assert a + b == b;
    } else {
      assert (a + b)[1..] == a[1..] + b;
      RootsConcat(a[1..], b, edges);
    }
  }

  /** A single node is a root exactly when no edge targets its id. */
  lemma RootsSingleton(n: SerializedNode, edges: seq<Edge>)
    ensures Roots([n], edges) == if IsTarget(edges, n.id) then [] else [n]
  {
    assert [n][1..] == [];
  }

  /** `p` is a path of flow nodes along edges. */
  ghost predicate IsPath(nodes: seq<SerializedNode>, edges: seq<Edge>, p: seq<SerializedNode>) {
    && |p| > 0
    && p[0] in nodes
    && (|p| > 1 ==> Step(edges, p[0], p[1]) && IsPath(nodes, edges, p[1..]))
  }

  /** Node id `id` is reachable from node `start` along edges (a node reaches itself). */
  ghost predicate ReachableFrom(nodes: seq<SerializedNode>, edges: seq<Edge>, start: SerializedNode, id: NodeId) {
    exists p: seq<SerializedNode> :: IsPath(nodes, edges, p) && p[0] == start && Last(p).id == id
  }

  function Last<T>(p: seq<T>): T
    requires |p| > 0
  {
    p[|p| - 1]
  }

  lemma PathCons(nodes: seq<SerializedNode>, edges: seq<Edge>, a: SerializedNode, p: seq<SerializedNode>)
    requires a in nodes && IsPath(nodes, edges, p) && Step(edges, a, p[0])
    ensures IsPath(nodes, edges, [a] + p) && Last([a] + p) == Last(p)
  {
    assert ([a] + p)[1..] == p;
  }

  /** Building only adds ids to the map, and `build(parent)` registers `parent`. */
  lemma {:induction false} BuildGrows(nodes: seq<SerializedNode>, edges: seq<Edge>, parent: SerializedNode, m: NodeMap, rank: NodeId -> nat)
    requires parent in nodes && Ranked(nodes, edges, rank)
    ensures var r := Build(nodes, edges, parent, m, rank).1; m.Keys <= r.Keys && parent.id in r
    decreases rank(parent.id), 1, 0
  {
    var m1 := if parent.id in m then m else m[parent.id := parent];
    ChildNodesRanked(nodes, edges, parent, rank);
    BuildChildrenGrows(nodes, edges, parent.id, OutgoingEdges(edges, parent.id), ChildNodes(nodes, edges, parent), m1, rank);
  }

  lemma {:induction false} BuildChildrenGrows(nodes: seq<SerializedNode>, edges: seq<Edge>, parentId: NodeId, conns: seq<Edge>,
                                              kids: seq<SerializedNode>, m: NodeMap, rank: NodeId -> nat)
    requires Ranked(nodes, edges, rank)
    requires forall k | k in kids :: k in nodes && rank(k.id) < rank(parentId) && IsTarget(edges, k.id)
    ensures m.Keys <= BuildChildren(nodes, edges, parentId, conns, kids, m, rank).1.Keys
    decreases rank(parentId), 0, |kids|
  {
    if kids != [] {
      var b := Build(nodes, edges, kids[0], m, rank);
      BuildGrows(nodes, edges, kids[0], m, rank);
      BuildChildrenGrows(nodes, edges, parentId, conns, kids[1..], b.1, rank);
    }
  }

  lemma {:induction false} BuildAllGrows(nodes: seq<SerializedNode>, edges: seq<Edge>, roots: seq<SerializedNode>, m: NodeMap, rank: NodeId -> nat)
    requires Ranked(nodes, edges, rank)
    requires forall n | n in roots :: n in nodes
    ensures m.Keys <= BuildAll(nodes, edges, roots, m, rank).1.Keys
  {
    if roots != [] {
      var b := Build(nodes, edges, roots[0], m, rank);
      BuildGrows(nodes, edges, roots[0], m, rank);
      BuildAllGrows(nodes, edges, roots[1..], b.1, rank);
    }
  }

  /** Every id that `build(parent)` adds to the map is reachable from `parent`. */
  lemma {:induction false} BuildSound(nodes: seq<SerializedNode>, edges: seq<Edge>, parent: SerializedNode, m: NodeMap, rank: NodeId -> nat, id: NodeId)
    requires parent in nodes && Ranked(nodes, edges, rank)
    requires id in Build(nodes, edges, parent, m, rank).1 && id !in m
    ensures ReachableFrom(nodes, edges, parent, id)
    decreases rank(parent.id), 1, 0
  {
    var m1 := if parent.id in m then m else m[parent.id := parent];
    var kids := ChildNodes(nodes, edges, parent);
    ChildNodesRanked(nodes, edges, parent, rank);
    if id == parent.id {
      assert IsPath(nodes, edges, [parent]);
    } else {
      var k := BuildChildrenSound(nodes, edges, parent.id, OutgoingEdges(edges, parent.id), kids, m1, rank, id);
      var q: seq<SerializedNode> :| IsPath(nodes, edges, q) && q[0] == k && Last(q).id == id;
      PathCons(nodes, edges, parent, q);
    }
  }

  lemma {:induction false} BuildChildrenSound(nodes: seq<SerializedNode>, edges: seq<Edge>, parentId: NodeId, conns: seq<Edge>,
                                              kids: seq<SerializedNode>, m: NodeMap, rank: NodeId -> nat, id: NodeId) returns (k: SerializedNode)
    requires Ranked(nodes, edges, rank)
    requires forall k | k in kids :: k in nodes && rank(k.id) < rank(parentId) && IsTarget(edges, k.id)
    requires id in BuildChildren(nodes, edges, parentId, conns, kids, m, rank).1 && id !in m
    ensures k in kids && ReachableFrom(nodes, edges, k, id)
    decreases rank(parentId), 0, |kids|
  {
    var b := Build(nodes, edges, kids[0], m, rank);
    if id in b.1 {
      BuildSound(nodes, edges, kids[0], m, rank, id);
      k := kids[0];
    } else {
      k := BuildChildrenSound(nodes, edges, parentId, conns, kids[1..], b.1, rank, id);
    }
  }

  /** The end of every path that starts at `parent` is registered by `build(parent)`. */
  lemma {:induction false} BuildComplete(nodes: seq<SerializedNode>, edges: seq<Edge>, parent: SerializedNode, m: NodeMap, rank: NodeId -> nat, p: seq<SerializedNode>)
    requires parent in nodes && Ranked(nodes, edges, rank)
    requires IsPath(nodes, edges, p) && p[0] == parent
    ensures Last(p).id in Build(nodes, edges, parent, m, rank).1
    decreases rank(parent.id), 1, 0
  {
    BuildGrows(nodes, edges, parent, m, rank);
    if |p| > 1 {
      var m1 := if parent.id in m then m else m[parent.id := parent];
      var kids := ChildNodes(nodes, edges, parent);
      ChildNodesRanked(nodes, edges, parent, rank);
      assert p[1] in kids;
      var i :| 0 <= i < |kids| && kids[i] == p[1];
      assert Last(p[1..]) == Last(p);
      BuildChildrenComplete(nodes, edges, parent.id, OutgoingEdges(edges, parent.id), kids, m1, rank, i, p[1..]);
    }
  }

  lemma {:induction false} BuildChildrenComplete(nodes: seq<SerializedNode>, edges: seq<Edge>, parentId: NodeId, conns: seq<Edge>,
                                                 kids: seq<SerializedNode>, m: NodeMap, rank: NodeId -> nat, i: nat, p: seq<SerializedNode>)
    requires Ranked(nodes, edges, rank)
    requires forall k | k in kids :: k in nodes && rank(k.id) < rank(parentId) && IsTarget(edges, k.id)
    requires i < |kids| && IsPath(nodes, edges, p) && p[0] == kids[i]
    ensures Last(p).id in BuildChildren(nodes, edges, parentId, conns, kids, m, rank).1
    decreases rank(parentId), 0, |kids|
  {
    var b := Build(nodes, edges, kids[0], m, rank);
    BuildChildrenGrows(nodes, edges, parentId, conns, kids[1..], b.1, rank);
    if i == 0 {
      BuildComplete(nodes, edges, kids[0], m, rank, p);
    } else {
      BuildChildrenComplete(nodes, edges, parentId, conns, kids[1..], b.1, rank, i - 1, p);
    }
  }

  lemma {:induction false} BuildAllSound(nodes: seq<SerializedNode>, edges: seq<Edge>, roots: seq<SerializedNode>, m: NodeMap, rank: NodeId -> nat, id: NodeId) returns (n: SerializedNode)
    requires Ranked(nodes, edges, rank)
    requires forall n | n in roots :: n in nodes
    requires id in BuildAll(nodes, edges, roots, m, rank).1 && id !in m
    ensures n in roots && ReachableFrom(nodes, edges, n, id)
  {
    var b := Build(nodes, edges, roots[0], m, rank);
    if id in b.1 {
      BuildSound(nodes, edges, roots[0], m, rank, id);
      n := roots[0];
    } else {
      n := BuildAllSound(nodes, edges, roots[1..], b.1, rank, id);
    }
  }

  lemma {:induction false} BuildAllComplete(nodes: seq<SerializedNode>, edges: seq<Edge>, roots: seq<SerializedNode>, m: NodeMap, rank: NodeId -> nat, i: nat, p: seq<SerializedNode>)
    requires Ranked(nodes, edges, rank)
    requires forall n | n in roots :: n in nodes
    requires i < |roots| && IsPath(nodes, edges, p) && p[0] == roots[i]
    ensures Last(p).id in BuildAll(nodes, edges, roots, m, rank).1
  {
    var b := Build(nodes, edges, roots[0], m, rank);
    BuildAllGrows(nodes, edges, roots[1..], b.1, rank);
    if i == 0 {
      BuildComplete(nodes, edges, roots[0], m, rank, p);
    } else {
      BuildAllComplete(nodes, edges, roots[1..], b.1, rank, i - 1, p);
    }
  }

  /**
   * The compiled node map holds exactly the ids reachable from a root, so an id reachable along
   * several paths is registered once.
   */
  lemma NodeMapIsReachable(nodes: seq<SerializedNode>, edges: seq<Edge>, rank: NodeId -> nat, id: NodeId)
    requires Ranked(nodes, edges, rank)
    ensures id in CompileFlow(nodes, edges, rank).serializedNodeMap <==>
      exists n | n in Roots(nodes, edges) :: ReachableFrom(nodes, edges, n, id)
  {
    var roots := Roots(nodes, edges);
    var m := BuildAll(nodes, edges, roots, map[], rank).1;
    assert CompileFlow(nodes, edges, rank).serializedNodeMap == m;
    if id in m {
      var n := BuildAllSound(nodes, edges, roots, map[], rank, id);
    }
    if exists n | n in roots :: ReachableFrom(nodes, edges, n, id) {
      var n :| n in roots && ReachableFrom(nodes, edges, n, id);
      var i :| 0 <= i < |roots| && roots[i] == n;
      var p: seq<SerializedNode> :| IsPath(nodes, edges, p) && p[0] == n && Last(p).id == id;
      BuildAllComplete(nodes, edges, roots, map[], rank, i, p);
    }
  }
}
