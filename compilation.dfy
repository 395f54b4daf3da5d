/**
 * The compiler as the source writes it: the recursive `build` writes every node it visits into a
 * mutable id -> node record unless the id is already there, and returns the compiled tree. Both
 * copies of the compiler share this shape; each method is proved to compute what the matching
 * function of `FlowCompiler` computes.
 */
module Compilation {
  import opened Types
  import opened FlowCompiler

  class NodeMapBuilder {
    /** The record `build` fills (`serializedNodeMap`, or `nodeMap` in the plugin copy). */
    var entries: NodeMap

    constructor ()
      ensures entries == map[]
    {
      entries := map[];
    }

    /** `build(parent)`. */
    method Build(nodes: seq<SerializedNode>, edges: seq<Edge>, parent: SerializedNode, ghost rank: NodeId -> nat)
      returns (c: CompiledNode)
      requires parent in nodes && Ranked(nodes, edges, rank)
      modifies this
      ensures (c, entries) == FlowCompiler.Build(nodes, edges, parent, old(entries), rank)
      decreases rank(parent.id), 1, 0
    {
      if parent.id !in entries {
        entries := entries[parent.id := parent];
      }
      var childConnections := OutgoingEdges(edges, parent.id);
      var childNodes := ChildNodes(nodes, edges, parent);
      ChildNodesRanked(nodes, edges, parent, rank);
      var children := BuildChildren(nodes, edges, parent.id, childConnections, childNodes, rank);
      c := CompiledNode(parent.id, children);
    }

    /** `childNodes.map(node => ({node: build(node), connections: childConnections.filter(...)}))`. */
    method BuildChildren(nodes: seq<SerializedNode>, edges: seq<Edge>, ghost parentId: NodeId, conns: seq<Edge>,
                         kids: seq<SerializedNode>, ghost rank: NodeId -> nat) returns (children: seq<CompiledChild>)
      requires Ranked(nodes, edges, rank)
      requires forall k | k in kids :: k in nodes && rank(k.id) < rank(parentId) && IsTarget(edges, k.id)
      modifies this
      ensures (children, entries) == FlowCompiler.BuildChildren(nodes, edges, parentId, conns, kids, old(entries), rank)
      decreases rank(parentId), 0, |kids|
    {
      ghost var whole := FlowCompiler.BuildChildren(nodes, edges, parentId, conns, kids, entries, rank);
      children := [];
      var i := 0;
      while i < |kids|
        invariant 0 <= i <= |kids|
        invariant var rest := FlowCompiler.BuildChildren(nodes, edges, parentId, conns, kids[i..], entries, rank);
          children + rest.0 == whole.0 && rest.1 == whole.1
      {
        ghost var before := entries;
        var child := Build(nodes, edges, kids[i], rank);
        BuildChildrenStep(nodes, edges, parentId, conns, kids, i, before, rank);
        children := children + [CompiledChild(child, EdgesTo(conns, kids[i].id))];
        i := i + 1;
      }
      assert kids[i..] == [] && children + [] == children;
    }

    /** `roots.map(build)`. */
    method BuildAll(nodes: seq<SerializedNode>, edges: seq<Edge>, roots: seq<SerializedNode>, ghost rank: NodeId -> nat)
      returns (trees: seq<CompiledNode>)
      requires Ranked(nodes, edges, rank)
      requires forall n | n in roots :: n in nodes
      modifies this
      ensures (trees, entries) == FlowCompiler.BuildAll(nodes, edges, roots, old(entries), rank)
    {
      ghost var whole := FlowCompiler.BuildAll(nodes, edges, roots, entries, rank);
      trees := [];
      var i := 0;
      while i < |roots|
        invariant 0 <= i <= |roots|
        invariant var rest := FlowCompiler.BuildAll(nodes, edges, roots[i..], entries, rank);
          trees + rest.0 == whole.0 && rest.1 == whole.1
      {
        ghost var before := entries;
        var tree := Build(nodes, edges, roots[i], rank);
        BuildAllStep(nodes, edges, roots, i, before, rank);
        trees := trees + [tree];
        i := i + 1;
      }
      assert roots[i..] == [] && trees + [] == trees;
    }
  }

  /** One step of `roots.map(build)`: the tree of `roots[i]`, then the trees of the roots after it. */
  lemma BuildAllStep(nodes: seq<SerializedNode>, edges: seq<Edge>, roots: seq<SerializedNode>, i: nat, m: NodeMap,
                     rank: NodeId -> nat)
    requires Ranked(nodes, edges, rank)
    requires forall n | n in roots :: n in nodes
    requires i < |roots|
    ensures var (c, m1) := FlowCompiler.Build(nodes, edges, roots[i], m, rank);
      var rest := FlowCompiler.BuildAll(nodes, edges, roots[i + 1..], m1, rank);
      FlowCompiler.BuildAll(nodes, edges, roots[i..], m, rank) == ([c] + rest.0, rest.1)
  {
    assert roots[i..][0] == roots[i] && roots[i..][1..] == roots[i + 1..];
  }

  /** One step of `childNodes.map(...)`: the child for `kids[i]`, then the children after it. */
  lemma BuildChildrenStep(nodes: seq<SerializedNode>, edges: seq<Edge>, parentId: NodeId, conns: seq<Edge>,
                          kids: seq<SerializedNode>, i: nat, m: NodeMap, rank: NodeId -> nat)
    requires Ranked(nodes, edges, rank)
    requires forall k | k in kids :: k in nodes && rank(k.id) < rank(parentId) && IsTarget(edges, k.id)
    requires i < |kids|
    ensures var (c, m1) := FlowCompiler.Build(nodes, edges, kids[i], m, rank);
      var rest := FlowCompiler.BuildChildren(nodes, edges, parentId, conns, kids[i + 1..], m1, rank);
      FlowCompiler.BuildChildren(nodes, edges, parentId, conns, kids[i..], m, rank) ==
        ([CompiledChild(c, EdgesTo(conns, kids[i].id))] + rest.0, rest.1)
  {
    assert kids[i..][0] == kids[i] && kids[i..][1..] == kids[i + 1..];
  }
}
