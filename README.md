# script-graph flow engine, modelled in Dafny

script-graph runs *flows*: graphs of nodes joined by edges, where every node has a type, and
every type is a registered definition with an asynchronous executor. The model covers this
project's execution core:

- **Flow compiler.** It finds the root nodes (those no edge targets). It builds a tree of
  children per root and fills an id -> node map as it goes. There are two copies: the
  runtime's `CompileFlow` and the core plugin's `compileFlow`.
- **Executable-node protocol.** This is idempotent parent/child registration. It includes the
  barrier in `onParentCalling`, which stores a parent's value and runs the node once every
  parent slot holds one. `collectParentResults` maps handles to inputs. `run` streams node
  statuses. `LoopExecutable` runs its children once per array element.
- **Orchestrator.** `setSGNodes` builds the type registry. `GetExecutableNode` and
  `CreateExecutableNodeMap` make an executable node for every compiled node, and an unknown
  type throws. `ExecuteFlow` links the compiled trees, runs the non-`entrypoint` roots and then
  the `entrypoint` roots, and swallows the first failure.
- **Desktop services.**
  - The blueprint service keeps the built-in and plugin node definitions, the plugin-name
    filter and the type lookups.
  - The `executeFlow` IPC handler expands `Template` nodes into the flows they refer to and
    concatenates their nodes and edges.
  - The built-in `Sleep` and `CopyResources` executors decide things: the duration-suffix
    rule, the `cp` argument list and the exit-code rule.

## How things are represented

- **Executable nodes live in an arena.** This is a map from node id to node, `NodeProtocol.Arena`.
  The source keys `executableNodeMap` by id and compares nodes only through `getNode().id`, so
  an id stands in for an object reference.
- **Streamed events form a trace.** `streamLog` and `streamNodeStatus` each append one event to
  a trace (`Types.Event`), in order.
- **Engine state is the arena plus the trace.** The mutable state is the class
  `ExecutableNode.ExecutableNodeMap`. Its methods are proved to compute what the pure
  specification functions of `NodeRun` compute.
- **A run returns a step.** The functions return a `Step`: the new engine, plus the error that
  was thrown, if any.
- **Executors are pure functions.** An executor is
  `(inputs, config, node) -> Execution(logs, outputs-or-error)`.
- **Termination has a precondition.** Compilation and execution take a ghost ranking of node
  ids, and every edge between nodes of the flow goes from a higher rank to a lower one. Template
  expansion takes a ranking of flow keys in the same way, over every stored flow. The source
  itself has no cycle check. These preconditions exclude more than the flows the source cannot
  run: see "## Left out".
- **The Blueprints copy of `ExecutableNode` is the plain kind.**
  `packages/electron/src/Services/Blueprints.ts:122-241` behaves as the plain kind of the
  runtime's node. Its statuses and logs go to the main window rather than to callbacks, and
  there is no loop kind. The same members model both copies.
- **Both compilers share one definition.** `FlowCompiler.CompileFlow` defines the result. The
  runtime's `Runtime.FlowRuntime.CompileFlow` and the plugin's `CoreFlowCompiler.CompileFlow`
  are both proved equal to it. They differ only in the field names of the returned record.

## Model

| member | source | states |
|---|---|---|
| FlowCompiler.Roots | packages/flow-runtime/src/index.ts:128-130 | a node is a root exactly when it is in the input and no edge targets its id; there are never more roots than nodes |
| FlowCompiler.RootsConcat | packages/plugins/core/src/utils/flow_compiler.ts:6 | the root filter works node by node, so roots keep input order: the roots of `a + b` are the roots of `a` followed by the roots of `b` |
| FlowCompiler.RootsSingleton | packages/flow-runtime/src/index.ts:128-130 | a single node is a root exactly when no edge targets its id |
| FlowCompiler.OutgoingEdges | packages/flow-runtime/src/index.ts:137-139 | `childConnections` holds exactly the edges whose source is the parent |
| FlowCompiler.EdgesTo | packages/flow-runtime/src/index.ts:150-152 | a child's connections are exactly the parent's edges that end at that child |
| FlowCompiler.TargetedNodes | packages/plugins/core/src/utils/flow_compiler.ts:15-17 | the nodes kept are exactly the input nodes that some connection targets, so an edge to an id outside the input gives no child |
| FlowCompiler.ChildNodes | packages/flow-runtime/src/index.ts:141-143 | the children of a node are exactly the nodes of the flow that an edge from it targets |
| FlowCompiler.ChildNodesRanked | packages/flow-runtime/src/index.ts:141-143 | every child is a node of the flow and an edge target, and is ranked below its parent |
| FlowCompiler.Build | packages/flow-runtime/src/index.ts:132-156 | `build(parent)` returns a tree whose id is the parent's id (termination rests on the ranking) |
| FlowCompiler.BuildChildren | packages/flow-runtime/src/index.ts:147-154 | one child entry per targeted node |
| FlowCompiler.BuildAll | packages/flow-runtime/src/index.ts:160 | one tree per root |
| FlowCompiler.BuildAllIds | packages/flow-runtime/src/index.ts:160 | the i-th tree is built from the i-th root |
| FlowCompiler.CompileFlow | packages/flow-runtime/src/index.ts:122-162 | one compiled tree per root, in root order, each carrying its root's id |
| FlowCompiler.BuildMap | packages/flow-runtime/src/index.ts:133-135 | the map only grows, and no entry is replaced, so the first node registered for an id wins. Every entry is a node of the flow with that id, and every id of the built tree is in the map |
| FlowCompiler.BuildChildrenMap | packages/flow-runtime/src/index.ts:147-154 | building the children keeps every earlier map entry and registers every id of every child tree |
| FlowCompiler.BuildAllMap | packages/flow-runtime/src/index.ts:158-161 | building all roots keeps every earlier map entry and registers every id of every tree |
| FlowCompiler.BuildGrows | packages/plugins/core/src/utils/flow_compiler.ts:8-11 | `build(parent)` only adds ids to the map and always registers the parent |
| FlowCompiler.BuildChildrenGrows | packages/plugins/core/src/utils/flow_compiler.ts:21-26 | building the children only adds ids to the map |
| FlowCompiler.BuildAllGrows | packages/plugins/core/src/utils/flow_compiler.ts:32 | building the roots only adds ids to the map |
| FlowCompiler.BuildRanked | packages/flow-runtime/src/index.ts:145-155 | in a built tree every child is an edge target and ranked below its parent |
| FlowCompiler.BuildChildrenRanked | packages/flow-runtime/src/index.ts:147-154 | the child entries are edge targets ranked below the parent |
| FlowCompiler.BuildAllRanked | packages/flow-runtime/src/index.ts:160 | every compiled tree is ranked |
| FlowCompiler.BuildChildrenShape | packages/flow-runtime/src/index.ts:137-154 | a compiled node has exactly one child entry per targeted node of the flow, in node order, and each entry's connections are exactly the edges from the parent to that child |
| FlowCompiler.BuildChildrenConnections | packages/plugins/core/src/utils/flow_compiler.ts:13-27 | the k-th child entry is built from the k-th child node, and its connections are the parent's edges to that child |
| FlowCompiler.CompileFlowWellFormed | packages/flow-runtime/src/index.ts:158-161 | every entry of the compiled map is a node of the flow under its own id, and every id of every compiled tree is in the map |
| FlowCompiler.BuildSound | packages/flow-runtime/src/index.ts:132-156 | every id that `build(parent)` adds to the map is reachable from the parent along edges |
| FlowCompiler.BuildChildrenSound | packages/flow-runtime/src/index.ts:147-154 | an id added while building the children is reachable from one of the children |
| FlowCompiler.BuildComplete | packages/flow-runtime/src/index.ts:132-156 | the end of every path from the parent is registered by `build(parent)` |
| FlowCompiler.BuildChildrenComplete | packages/flow-runtime/src/index.ts:147-154 | the end of every path from a child is registered while building the children |
| FlowCompiler.BuildAllSound | packages/flow-runtime/src/index.ts:158-161 | an id added while building the roots is reachable from one of the roots |
| FlowCompiler.BuildAllComplete | packages/flow-runtime/src/index.ts:158-161 | the end of every path from a root is registered |
| FlowCompiler.NodeMapIsReachable | packages/flow-runtime/src/index.ts:126-161 | an id is in `serializedNodeMap` if and only if it is reachable from some root |
| Compilation.NodeMapBuilder.Build | packages/flow-runtime/src/index.ts:132-156 | the recursive `build`, writing into the mutable record, returns the tree and leaves the record that `FlowCompiler.Build` gives |
| Compilation.NodeMapBuilder.BuildChildren | packages/flow-runtime/src/index.ts:147-154 | the `map` over child nodes agrees with `FlowCompiler.BuildChildren`, both the entries and the record |
| Compilation.NodeMapBuilder.BuildAll | packages/flow-runtime/src/index.ts:160 | `roots.map(build)` agrees with `FlowCompiler.BuildAll` |
| CoreFlowCompiler.CompileFlow | packages/plugins/core/src/utils/flow_compiler.ts:3-34 | the plugin copy returns the same node map (as `nodes`) and the same root trees as the runtime's compiler |
| NodeProtocol.NewNode | packages/flow-runtime/src/ExecutableNode.ts:12-28 | a new executable node has no children, no parents, an empty `results`, and the given kind and serialized node |
| NodeProtocol.ChildConnections | packages/flow-runtime/src/ExecutableNode.ts:60-62 | a child's connections are found exactly when the child id is registered |
| NodeProtocol.ParentConnections | packages/flow-runtime/src/ExecutableNode.ts:71-73 | a parent's connections are found exactly when the parent id is registered |
| NodeProtocol.AddParent | packages/flow-runtime/src/ExecutableNode.ts:69-77 | only node `id` changes, and only its parents. Afterwards the parent id is registered |
| NodeProtocol.AddParentIdempotent | packages/flow-runtime/src/ExecutableNode.ts:69-77 | a second `addParent` with the same parent id changes nothing, whatever connections it passes |
| NodeProtocol.AddParentAppends | packages/flow-runtime/src/ExecutableNode.ts:75 | a new parent gets a slot at the end with the given connections and value `undefined`; nothing else of the node changes |
| NodeProtocol.AddChild | packages/flow-runtime/src/ExecutableNode.ts:58-67 | only the parent and the child change. Afterwards the child is registered, and a child that was new has the parent registered back |
| NodeProtocol.AddChildRegisteredNoop | packages/flow-runtime/src/ExecutableNode.ts:59-63 | `addChild` with an already registered child id changes nothing |
| NodeProtocol.AddChildIdempotent | packages/flow-runtime/src/ExecutableNode.ts:58-67 | a second `addChild` of the same child id changes nothing, whatever connections it passes |
| NodeProtocol.AddChildAppends | packages/flow-runtime/src/ExecutableNode.ts:64-65 | a new child is appended to the parent's children, and the parent gets an empty slot at the end of the child's parents, both with the given connections |
| NodeProtocol.AddChildShape | packages/flow-runtime/src/ExecutableNode.ts:64-65 | for a new pair, exactly the parent's child list and the child's parent list each grow by one entry |
| NodeProtocol.FreshRegistered | packages/flow-runtime/src/ExecutableNode.ts:13-21 | newly created nodes are consistently linked |
| NodeProtocol.AddChildKeepsRegistered | packages/electron/src/Services/Blueprints.ts:181-200 | `addChild` keeps every link symmetric (a child's connections in the parent equal the parent's in the child) and keeps child ids and parent ids distinct, so a shared descendant has one slot per distinct parent |
| NodeProtocol.Deliver | packages/flow-runtime/src/ExecutableNode.ts:90-95 | only the first slot whose parent id is the caller gets the value; every other slot and all connections are unchanged |
| NodeProtocol.DeliverUnregistered | packages/flow-runtime/src/ExecutableNode.ts:90-95 | a caller that is not a registered parent changes no slot |
| NodeProtocol.DeliverKeepsAllDelivered | packages/flow-runtime/src/ExecutableNode.ts:89-103 | slots are never cleared: once all are filled, later deliveries leave them filled |
| NodeProtocol.DeliverAll | packages/flow-runtime/src/ExecutableNode.ts:89-95 | a series of calls leaves the slot list, its parent ids and its connections intact |
| NodeProtocol.DeliverAllFills | packages/flow-runtime/src/ExecutableNode.ts:89-95 | with distinct parent ids, a slot holds a value after a series of calls if and only if it did before or its parent called |
| NodeProtocol.BarrierOpensIffAllParentsCalled | packages/electron/src/Services/Blueprints.ts:212-226 | from empty slots, the condition to run holds after a series of calls if and only if every registered parent has called at least once |
| NodeProtocol.ValueAt | packages/flow-runtime/src/ExecutableNode.ts:112 | `value[sourceHandle]` is the element at that index, or `undefined` past the end |
| NodeProtocol.Put | packages/flow-runtime/src/ExecutableNode.ts:111-112 | the assignment sets index `k` and leaves every other index as it was; the array grows to `k + 1` when it was shorter |
| NodeProtocol.SlotWrites | packages/flow-runtime/src/ExecutableNode.ts:110-113 | one write per connection, in order, from its source handle to its target handle |
| NodeProtocol.ApplyConcat | packages/flow-runtime/src/ExecutableNode.ts:109-114 | the writes of the nested loops are applied strictly in order |
| NodeProtocol.ApplyLastWriteWins | packages/flow-runtime/src/ExecutableNode.ts:109-114 | after the writes, an index holds the value of the last write to it, or its old value when nothing wrote it; the length is what the largest written handle needs |
| NodeProtocol.WritesConcat | packages/flow-runtime/src/ExecutableNode.ts:109-114 | the writes of the parents, in order, are the writes of the earlier parents followed by those of the last one |
| NodeProtocol.CollectLastEdgeWins | packages/electron/src/Services/Blueprints.ts:229-240 | `collectParentResults` puts at each target handle the source value of the last parent edge aimed at it, in parents then connections order; an index no edge targets is `undefined`, and the array ends after the largest target handle |
| NodeProtocol.SlotWritesLast | packages/flow-runtime/src/ExecutableNode.ts:110-113 | within one parent, the last write to a handle comes from that parent's last connection to it |
| NodeProtocol.ChildConnectionsAppend | packages/flow-runtime/src/ExecutableNode.ts:64 | appending a child link keeps the first registration of an id |
| NodeProtocol.ParentConnectionsAppend | packages/flow-runtime/src/ExecutableNode.ts:75 | appending a parent slot keeps the first registration of an id |
| NodeRun.LoopItems | packages/flow-runtime/src/ExecutableNode.ts:123-136 | the loop gets items exactly when the first output is an array, and then gets its elements; an executor failure stays that failure |
| NodeRun.Run | packages/flow-runtime/src/ExecutableNode.ts:30-52 | `run` only adds links and fills slots and `results` (never removes a node) and only appends to the trace |
| NodeRun.Iterate | packages/flow-runtime/src/ExecutableNode.ts:136-138 | the loop body only evolves the arena and appends to the trace |
| NodeRun.CallChildren | packages/flow-runtime/src/ExecutableNode.ts:80-87 | `callChildren` only evolves the arena and appends to the trace |
| NodeRun.CallEach | packages/flow-runtime/src/ExecutableNode.ts:82-86 | dispatching to the children one after another only evolves the arena and appends to the trace |
| NodeRun.OnParentCalling | packages/flow-runtime/src/ExecutableNode.ts:89-103 | `onParentCalling` only evolves the arena and appends to the trace |
| NodeRun.IterateStep | packages/flow-runtime/src/ExecutableNode.ts:136-138 | one iteration is `callChildren([first])`, then the rest of the array unless that threw |
| NodeRun.CallEachStep | packages/flow-runtime/src/ExecutableNode.ts:83-85 | every child is called exactly once, in order, with this node as caller and the outputs as value; the first failure is the aggregate error, and the remaining children are still called |
| NodeRun.IterateConcat | packages/flow-runtime/src/ExecutableNode.ts:136-138 | iterations run strictly in index order: looping over `a + b` is looping over `a`, then over `b` unless `a` threw |
| NodeRun.RunExecutorFails | packages/flow-runtime/src/ExecutableNode.ts:45-50 | when the executor rejects, the trace gets its logs and then `{success: false}`; the error is rethrown, no node changes and no child is called |
| NodeRun.RunExecutorSucceeds | packages/flow-runtime/src/ExecutableNode.ts:32-44 | when the executor resolves, its logs and `{success: true}` come first, then everything `callChildren(outputs)` does; a child's failure appends `{success: false}` and is rethrown |
| NodeRun.RunStatuses | packages/flow-runtime/src/ExecutableNode.ts:30-52 | the statuses a run streams for its own node: plain gives `[false]`, `[true]`, or `[true, false]` when a child fails; a loop gives exactly one, `true` if and only if the run succeeded |
| NodeRun.RunStatusesPlainOk | packages/electron/src/Services/Blueprints.ts:139-175 | a plain node whose executor succeeds streams `true`, and afterwards `false` exactly when a child fails |
| NodeRun.RunStatusesLoop | packages/flow-runtime/src/ExecutableNode.ts:121-150 | a loop node streams exactly one status for itself, `true` if and only if the loop succeeded |
| NodeRun.LoopOverArray | packages/flow-runtime/src/ExecutableNode.ts:136-149 | a loop node whose input is an array logs the executor's logs, calls the children once per item up to the first failure, then streams its own status, `true` exactly when no iteration failed, and carries that failure |
| NodeRun.SuccessThenChildren | packages/flow-runtime/src/ExecutableNode.ts:40-50 | `{success: true}`, the children's events, then an optional `{success: false}`, give the node's own statuses `[true]` or `[true, false]` |
| NodeRun.StatusesOfConcat | packages/flow-runtime/src/ExecutableNode.ts:40-49 | the statuses of a trace segment add up over concatenation |
| NodeRun.LoopWithoutArray | packages/flow-runtime/src/ExecutableNode.ts:132-134 | a loop whose first output has no usable array streams its logs and `{success: false}` and throws; no child is called |
| NodeRun.LoopOverEmptyArray | packages/flow-runtime/src/ExecutableNode.ts:136-142 | a loop over an empty array calls no child and streams exactly one `{success: true}` |
| NodeRun.CallChildrenStoresResults | packages/flow-runtime/src/ExecutableNode.ts:80-81 | `callChildren` sets `results` to the outputs, keeps the node's parents, and changes no node that is not ranked below it |
| NodeRun.OnParentCallingWaits | packages/flow-runtime/src/ExecutableNode.ts:97-99 | while some slot is still `undefined` after the delivery, only the value is stored: no run, no event |
| NodeRun.OnParentCallingUnregistered | packages/flow-runtime/src/ExecutableNode.ts:90-95 | an unregistered caller changes nothing and, while a slot is empty, streams nothing |
| NodeRun.OnParentCallingRerunsOnceFilled | packages/flow-runtime/src/ExecutableNode.ts:98-102 | once every slot holds a value, every further call runs the node again: at least one status of the node is streamed |
| NodeRun.RunWithin | packages/flow-runtime/src/ExecutableNode.ts:30-52 | a run streams statuses only for the node and what its child links reach |
| NodeRun.RunFrame | packages/flow-runtime/src/ExecutableNode.ts:30-52 | a run changes only the node itself and nodes ranked below it |
| NodeRun.CallChildrenFrame | packages/flow-runtime/src/ExecutableNode.ts:80-87 | `callChildren` changes only `results` of its node, plus nodes ranked below it |
| ExecutableNode.SomeChild | packages/flow-runtime/src/ExecutableNode.ts:60-62 | the loop answers yes if and only if some child link has that id |
| ExecutableNode.SomeParent | packages/flow-runtime/src/ExecutableNode.ts:71-73 | the loop answers yes if and only if some parent slot has that id |
| ExecutableNode.FindSlot | packages/flow-runtime/src/ExecutableNode.ts:90-92 | the index of the first slot of the caller, or -1 when no slot has the caller's id |
| ExecutableNode.SomeUndelivered | packages/flow-runtime/src/ExecutableNode.ts:98 | the loop answers yes if and only if some slot is still `undefined` |
| ExecutableNode.ExecutableNodeMap.constructor | packages/flow-runtime/src/index.ts:34-38 | the map starts with the given nodes and an empty trace |
| ExecutableNode.ExecutableNodeMap.AddParent | packages/flow-runtime/src/ExecutableNode.ts:69-77 | the nodes become `NodeProtocol.AddParent` of the old nodes; nothing is streamed |
| ExecutableNode.ExecutableNodeMap.AddChild | packages/flow-runtime/src/ExecutableNode.ts:58-67 | the nodes become `NodeProtocol.AddChild` of the old nodes; nothing is streamed |
| ExecutableNode.ExecutableNodeMap.CollectParentResults | packages/flow-runtime/src/ExecutableNode.ts:106-117 | the nested loops return `NodeProtocol.Collect` of the slots, whose last-edge-wins meaning `CollectLastEdgeWins` states |
| ExecutableNode.ExecutableNodeMap.Run | packages/flow-runtime/src/ExecutableNode.ts:30-52 | the new nodes, trace and thrown error are those of `NodeRun.Run` |
| ExecutableNode.ExecutableNodeMap.RunPlain | packages/electron/src/Services/Blueprints.ts:139-175 | a plain node's `run` ends in the state and error `NodeRun.Run` gives |
| ExecutableNode.ExecutableNodeMap.RunLoop | packages/flow-runtime/src/ExecutableNode.ts:120-150 | the `for` loop of `LoopExecutable.run` ends in the state and error `NodeRun.Run` gives |
| ExecutableNode.ExecutableNodeMap.CallChildren | packages/flow-runtime/src/ExecutableNode.ts:80-87 | the state and error of `NodeRun.CallChildren` |
| ExecutableNode.ExecutableNodeMap.OnParentCalling | packages/flow-runtime/src/ExecutableNode.ts:89-103 | the state and error of `NodeRun.OnParentCalling` |
| ExecutableNode.PutIsApply | packages/flow-runtime/src/ExecutableNode.ts:111-112 | one more assignment of the nested loops is one more write in the specification |
| ExecutableNode.DeliverIsFirstSlotWrite | packages/flow-runtime/src/ExecutableNode.ts:90-95 | writing the slot `find` returned, if any, is exactly `NodeProtocol.Deliver` |
| NodeRegistry.LastByType | packages/flow-runtime/src/index.ts:23 | every registered type maps to a definition of the list with that type |
| NodeRegistry.LastByTypeKeys | packages/flow-runtime/src/index.ts:20-24 | exactly the types that occur in the list are registered, and nothing earlier survives |
| NodeRegistry.LastByTypeLastWins | packages/flow-runtime/src/index.ts:20-24 | for a duplicated type the last definition of that type wins |
| NodeRegistry.LastByTypeConcat | packages/electron/src/Services/Blueprints.ts:64-67 | folding `a + b`: a type of `b` resolves to `b`'s definition, and a type only in `a` keeps `a`'s |
| Runtime.GetExecutableNode | packages/flow-runtime/src/index.ts:94-119 | a node is made exactly when the type is registered: a loop node if and only if the definition's type is `ForEach`, fresh, with the definition's executor and the serialized node; otherwise the error `Could not find executable node with type <type>` |
| Runtime.CreateExecutableNodeMap | packages/flow-runtime/src/index.ts:75-91 | a map is made if and only if every compiled node's type is registered; it has the same ids, each holding what `GetExecutableNode` makes |
| Runtime.Join | packages/flow-runtime/src/index.ts:40-48 | linking a tree keeps the set of nodes |
| Runtime.JoinChildren | packages/flow-runtime/src/index.ts:41-47 | linking the children keeps the set of nodes |
| Runtime.JoinAll | packages/flow-runtime/src/index.ts:50 | linking all roots keeps the set of nodes |
| Runtime.JoinLinksTree | packages/flow-runtime/src/index.ts:40-48 | after `recursivelyJoin(c)` every parent/child pair of `c` is linked |
| Runtime.JoinChildrenLinks | packages/flow-runtime/src/index.ts:41-47 | after linking the children, each child and its subtree are linked |
| Runtime.JoinAllLinks | packages/flow-runtime/src/index.ts:50 | after `roots.forEach(recursivelyJoin)` every parent/child pair of every compiled tree is linked |
| Runtime.JoinAllKeepsJoinable | packages/flow-runtime/src/index.ts:40-50 | linking keeps links symmetric, ids distinct and links ranked, so a shared descendant ends with one slot per distinct parent |
| Runtime.JoinAllGrows | packages/flow-runtime/src/index.ts:40-50 | linking only adds links: no child link or slot is lost |
| Runtime.AddChildKeepsJoinable | packages/flow-runtime/src/index.ts:42-45 | one `addChild` of a compiled pair keeps the linked arena consistent |
| Runtime.RootIds | packages/flow-runtime/src/index.ts:52-59 | each partition holds exactly the roots of its kind (`entrypoint` or not), and nothing else |
| Runtime.RunRoots | packages/flow-runtime/src/index.ts:62-64 | a pass only evolves the arena and appends to the trace |
| Runtime.RunRootsStep | packages/flow-runtime/src/index.ts:62-64 | a pass runs its first root with no inputs, then the rest unless that threw |
| Runtime.RunRootsConcat | packages/flow-runtime/src/index.ts:61-68 | running `a + b` is running `a`, then `b` unless a root of `a` threw |
| Runtime.RunRootsStopsAtFailure | packages/flow-runtime/src/index.ts:61-71 | a root that throws ends the pass with its error, and no later root runs |
| Runtime.RunRootsWithin | packages/flow-runtime/src/index.ts:62-64 | a pass streams statuses only for nodes that its roots reach |
| Runtime.Prepare | packages/flow-runtime/src/index.ts:32-50 | preparation succeeds if and only if every compiled type is registered; then it holds the compiled flow and a linked arena over exactly the compiled ids, with every root in it |
| Runtime.ExecuteFlowRejectsIffTypeMissing | packages/flow-runtime/src/index.ts:32-38 | `ExecuteFlow` rejects if and only if some compiled node has an unregistered type; in that case no node runs, because the map is built outside the `try` |
| Runtime.ExecuteFlowIsOnePass | packages/flow-runtime/src/index.ts:61-71 | the two loops act as one pass over the non-`entrypoint` roots followed by the `entrypoint` roots, stopped by the first failure; that failure is caught and the promise resolves |
| Runtime.CompiledRootsAreNotTargets | packages/flow-runtime/src/index.ts:128-130 | no edge targets a compiled root, so a root is nobody's child |
| Runtime.FirstPassSkipsEntrypoints | packages/flow-runtime/src/index.ts:52-64 | the non-`entrypoint` pass streams no status of any `entrypoint` root |
| Runtime.EntrypointRootsRunLast | packages/flow-runtime/src/index.ts:52-68 | the whole non-`entrypoint` pass comes before any `entrypoint` root runs: its trace opens the flow's trace, no `entrypoint` status occurs in it, and its failure ends the flow |
| Runtime.ExecuteSpecKnown | packages/flow-runtime/src/index.ts:32-50 | once every type is known, the passes run on the fresh nodes linked by `recursivelyJoin` |
| Runtime.RecursivelyJoin | packages/flow-runtime/src/index.ts:40-48 | the recursive `forEach` leaves the nodes `Join` gives and streams nothing |
| Runtime.JoinRoots | packages/flow-runtime/src/index.ts:50 | `roots.forEach(recursivelyJoin)` leaves the nodes `JoinAll` gives and streams nothing |
| Runtime.RunPass | packages/flow-runtime/src/index.ts:62-64 | the `for` loop ends in the state and error of `RunRoots` |
| Runtime.FlowRuntime.constructor | packages/flow-runtime/src/index.ts:18 | the registry starts empty |
| Runtime.FlowRuntime.SetSGNodes | packages/flow-runtime/src/index.ts:20-24 | the registry becomes the list folded by type, the last one winning, with nothing of the old registry left |
| Runtime.FlowRuntime.CompileFlow | packages/flow-runtime/src/index.ts:122-162 | the runtime's compiler returns `FlowCompiler.CompileFlow` |
| Runtime.FlowRuntime.ExecuteFlow | packages/flow-runtime/src/index.ts:26-72 | the outcome (rejection, or the streamed trace and the caught error) is the one `ExecuteSpec` gives, whose properties the lemmas above state |
| Blueprints.PluginPackages | packages/electron/src/Services/Blueprints.ts:48-54 | a dependency is loaded if and only if its name starts with `@script_graph/` and it is not `@script_graph/core` |
| Blueprints.PluginNodes | packages/electron/src/Services/Blueprints.ts:60-62 | the concatenation holds exactly the definitions of the loaded packages: each one comes from a loaded package, and every definition of every loaded package is appended |
| Blueprints.BlueprintService.constructor | packages/electron/src/Services/Blueprints.ts:27-29 | the built-ins are `Trigger`, `CopyResources`, `Sleep` in that order, and the record is empty |
| Blueprints.BlueprintService.LoadPlugins | packages/electron/src/Services/Blueprints.ts:48-67 | the plugin definitions are appended after the existing ones, package after package, and the record is rebuilt from the whole list |
| Blueprints.BlueprintService.GetSGNode | packages/electron/src/Services/Blueprints.ts:103-105 | a definition is found exactly when the type is registered; it then has that type and is one of the service's nodes; otherwise `null` |
| Blueprints.BlueprintService.GetExecutableNode | packages/electron/src/Services/Blueprints.ts:111-119 | a node is made exactly when the type is registered, always plain and fresh, with the definition's executor; otherwise `null`, never a throw |
| Blueprints.LoadedLookup | packages/electron/src/Services/Blueprints.ts:64-67 | after loading, a type resolves exactly when some definition has it, and to the last definition of that type |
| Blueprints.PluginsOverrideBuiltins | packages/electron/src/Services/Blueprints.ts:60-67 | a plugin's definition replaces a built-in of the same type; a type no plugin defines keeps its built-in |
| Blueprints.ForEachIsPlainHere | packages/electron/src/Services/Blueprints.ts:111-119 | for a `ForEach` definition the runtime makes a loop node where the blueprint service makes a plain one |
| Templates.NonEmptyField | packages/electron/src/Services/IpcHandler.ts:100-113 | the value of the first string field with that name, when it is a non-empty string |
| Templates.TemplateRef | packages/electron/src/Services/IpcHandler.ts:97-114 | a node refers to a flow if and only if its type is `Template` and its first `flowId` and `projectId` string fields are non-empty |
| Templates.NodeTemplate | packages/electron/src/Services/IpcHandler.ts:114-119 | a node contributes its template only when the lookup finds it |
| Templates.DirectTemplates | packages/electron/src/Services/IpcHandler.ts:97-121 | every direct template is a stored flow that some node refers to; failed lookups and incomplete templates are dropped |
| Templates.DirectTemplatesComplete | packages/electron/src/Services/IpcHandler.ts:114-121 | every reference whose flow is found is among the direct templates |
| Templates.DirectTemplatesConcat | packages/electron/src/Services/IpcHandler.ts:97-121 | the result keeps node order: the direct templates of `a + b` are those of `a` followed by those of `b` |
| Templates.Fetch | packages/electron/src/Services/IpcHandler.ts:94-129 | every gathered flow is stored and ranked below the processed flow (directs first, then each one's expansion) |
| Templates.FetchEach | packages/electron/src/Services/IpcHandler.ts:125-127 | every flow the `flatMap` gathers is stored and ranked below the bound |
| Templates.TemplateReferencedTwiceIsFetchedTwice | packages/electron/src/Services/IpcHandler.ts:123-128 | there is no deduplication: a flow that two `Template` nodes refer to is gathered at least twice |
| Templates.AllNodes | packages/electron/src/Services/IpcHandler.ts:136 | the concatenation holds exactly the nodes of the gathered flows: each comes from one of them, and every node of every gathered flow appears |
| Templates.AllEdges | packages/electron/src/Services/IpcHandler.ts:140 | the concatenation holds exactly the edges of the gathered flows: each comes from one of them, and every edge of every gathered flow appears |
| Templates.ExecutionInput | packages/electron/src/Services/IpcHandler.ts:92-141 | `ExecuteFlow` is called if and only if the flow is found, with the flow's nodes then the gathered flows' nodes, and the same for edges |
| Templates.ExecutionInputComesFromFlows | packages/electron/src/Services/IpcHandler.ts:133-141 | every node handed to the runtime is a node of the flow or of a gathered template flow |
| Templates.ExecutionInputHoldsFlows | packages/electron/src/Services/IpcHandler.ts:133-141 | every node and edge of the flow and of every gathered template flow is handed to the runtime |
| NodeConfigs.FindField | packages/electron/src/Nodes/CopyResources.ts:43-49 | `find` returns the first field with that name and kind, or nothing when no field matches |
| NodeConfigs.FieldValue | packages/electron/src/Nodes/CopyResources.ts:43-51 | `find(...)?.value` is present exactly when the first matching field exists and has a value |
| JsText.EndsWithMsEndsWithS | packages/electron/src/Nodes/Sleep.ts:34-44 | a value ending in `ms` also ends in `s`, so testing `ms` first decides the branch |
| JsText.ParseInt | packages/electron/src/Nodes/Sleep.ts:35 | `parseInt` is `NaN` exactly when no digit follows the spaces and sign; the sign decides the sign of the result |
| JsText.ParseIntReadsNumberText | packages/electron/src/Nodes/Sleep.ts:34-45 | `parseInt` reads back the decimal text of any integer followed by a suffix such as `ms` or `s` |
| JsText.NumberText | packages/electron/src/Nodes/Sleep.ts:39 | the decimal text of a number in a template literal is never empty |
| SleepNode.ParseDuration | packages/electron/src/Nodes/Sleep.ts:34-56 | rejects with `Duration not supported` exactly when the value does not end in `s`; a value ending in `ms` waits `parseInt(value)` milliseconds, and any other value ending in `s` waits `parseInt(value) * 1000` (`NaN` stays `NaN`) |
| SleepNode.MillisecondsSuffix | packages/electron/src/Nodes/Sleep.ts:34-43 | `<n>ms` waits `n` milliseconds, not `n * 1000` |
| SleepNode.SecondsSuffix | packages/electron/src/Nodes/Sleep.ts:44-53 | `<n>s` waits `n * 1000` milliseconds |
| SleepNode.SecondsLogShowsMilliseconds | packages/electron/src/Nodes/Sleep.ts:44-50 | whenever the duration field is accepted as `Delay(ms, "seconds")`, the first log is `Sleeping for <ms> seconds`; with `SecondsSuffix`, `<n>s` logs `n * 1000` before the word `seconds` |
| SleepNode.AcceptedLogs | packages/electron/src/Nodes/Sleep.ts:34-62 | an accepted duration logs `Sleeping for <ms> <unit>` and then `Done sleeping.`, both labelled with the node's id |
| SleepNode.Execute | packages/electron/src/Nodes/Sleep.ts:25-69 | the executor resolves if and only if a `duration` string field exists, has a value and the value ends in `s`. On success it gives one void output and two logs, the last `Done sleeping.`. A missing field throws the property-read error, a missing value `Duration required`, and a rejection logs nothing |
| SleepNode.Definition | packages/electron/src/Nodes/Sleep.ts:3-24 | the `sleep` type takes one void input and gives one void output |
| CopyResourcesNode.Arguments | packages/electron/src/Nodes/CopyResources.ts:56-72 | the argument list has 2 or 3 elements; it has 3, beginning with `-a`, if and only if the recursive option is selected; it ends with `<from>/.` then `<to>/.` |
| CopyResourcesNode.HasRecursiveFlag | packages/electron/src/Nodes/CopyResources.ts:58-67 | the nested `some` loops answer yes if and only if an `options` field named `flags` has the `recursive` option selected |
| CopyResourcesNode.BuildArguments | packages/electron/src/Nodes/CopyResources.ts:56-72 | the `push` sequence builds exactly `Arguments` |
| CopyResourcesNode.OutputLogs | packages/electron/src/Nodes/CopyResources.ts:83-105 | one log per process output, in order: stdout as info, stderr and spawn errors as errors |
| CopyResourcesNode.Execute | packages/electron/src/Nodes/CopyResources.ts:42-134 | a missing or empty path rejects with no logs; otherwise the logs are `Copying <from> to <to>`, one log per process output in order, `Process exited with code <code>`, and on a failing code `Could not copy <from> to <to>`; it resolves with one void output exactly when the code is 0 or null |
| CopyResourcesNode.Definition | packages/electron/src/Nodes/CopyResources.ts:4-16 | the `copy_resources` type takes one void input and gives one void output |

## Left out

- Real concurrency is not modelled. `Promise.all` in `callChildren` becomes one sequential schedule in children order, every child is still called after an earlier one fails, and the aggregate error is the first failure. Nothing is claimed about interleavings.
- Timers, the `cp` process, the main window and plugin loading are left out. The `Sleep` model yields the delay it would hand to `setTimeout`. `CopyResources` takes the process run (its output events and exit code) as a parameter. The `webContents.send` calls are the trace. `npm install`, `createRequire` and `package.json` reading become a list of dependency names and a `load` function.
- A process whose `close` event never fires would leave `CopyResources` pending forever; the model always has an exit.
- The `console.error` and `console.log` calls are left out, so a caught failure shows only as `Finished(trace, Some(error))`.
- `Object.entries` order in `CreateExecutableNodeMap` is not modelled. A missing type gives `Rejected` without saying which type was found first.
- Numbers are integers. Floating point, `NaN` arithmetic beyond the absent number, and exponent notation in number text are left out.
- `parseInt` skips the ASCII and a few Unicode white-space characters. The other Unicode space separators are not modelled.
- Strings are sequences of characters. There is no UTF-16 detail.
- A loop output that is a non-empty string is treated as malformed. JavaScript would iterate its characters.
- Edge handles are the naturals that `parseInt` of the string handles gives.
- The `Trigger`, `YarnInstall`, git and core-plugin entrypoint executors are left out, because they have no rule to state. `Trigger` is a parameter of the blueprint service.
- `getBlueprints` is left out (a presentation mapping), and so is the timestamp attached to streamed logs.
- Runtime.FlowRuntime.ExecuteFlow: requires a ranking of node ids under which every edge between flow nodes descends, so no flow with a cycle is modelled. A cycle that a root reaches makes the source's `build` overflow the stack; compilation is outside the `try`, so `ExecuteFlow` rejects. A cycle that no root reaches is never visited, because all of its nodes are edge targets and none is a root; the source runs such a flow and silently skips those nodes, but the precondition excludes it too.
- Templates.ExecutionInput: requires a ranking of flow keys under which every template reference of every stored flow descends. One self-referencing template anywhere in the store therefore excludes every execution, including flows that never reach it; the source only recurses through flows reachable from the executed one. A reachable template cycle makes the source recurse until the stack overflows; that is not modelled either. The same precondition holds for Templates.Fetch and Templates.ExecutionInputComesFromFlows.
- Object keys: JavaScript records are modelled as maps, so keys inherited from `Object.prototype` behave as absent. In the source, a node type such as `constructor` finds `Object` in `sgNodeMap` (packages/flow-runtime/src/index.ts:99-100), so a plain node with no executor is built and its `run` throws inside the `try`; here Runtime.GetExecutableNode returns an error and the flow rejects. `getSGNode("toString")` returns a function rather than null (packages/electron/src/Services/Blueprints.ts:103). A node whose id is `constructor` is never stored in `serializedNodeMap` (packages/flow-runtime/src/index.ts:133-134). None of this is modelled.
- `projectService.getFlow` is a finite map from (project id, flow id) to flows.
