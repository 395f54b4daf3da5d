/**
 * The compiler copy of the core plugin (`compileFlow` of its flow-compiler utility). It is the
 * runtime's compiler except that the filled record is returned under the name `nodes`; for the same
 * input it returns the same roots and the same node map as `FlowRuntime.CompileFlow`.
 */
module CoreFlowCompiler {
  import opened Types
  import opened FlowCompiler
  import opened Compilation

  datatype CoreCompiledFlow = CoreCompiledFlow(nodes: NodeMap, roots: seq<CompiledNode>)

  method CompileFlow(nodes: seq<SerializedNode>, edges: seq<Edge>, ghost rank: NodeId -> nat) returns (r: CoreCompiledFlow)
    requires Ranked(nodes, edges, rank)
    ensures r.nodes == FlowCompiler.CompileFlow(nodes, edges, rank).serializedNodeMap
    ensures r.roots == FlowCompiler.CompileFlow(nodes, edges, rank).roots
  {
    var nodeMap := new NodeMapBuilder();
    var roots := Roots(nodes, edges);
    var trees := nodeMap.BuildAll(nodes, edges, roots, rank);
    r := CoreCompiledFlow(nodeMap.entries, trees);
  }
}
