/**
 * The executable nodes of one flow execution, as the mutable objects of the flow runtime: every
 * `ExecutableNode` (and `LoopExecutable`) of the run lives in one id-keyed map whose entries the
 * methods below update in place, and what `streamLog` and `streamNodeStatus` send is appended to
 * `trace`. Each method is proved to leave exactly the state that the matching function of
 * `NodeProtocol` or `NodeRun` describes.
 */
module ExecutableNode {
  import opened Types
  import opened NodeProtocol
  import opened NodeRun

  /** `children.some(p => p.node.getNode().id === id)` */
  method SomeChild(cs: seq<ChildLink>, id: NodeId) returns (found: bool)
    ensures found <==> exists i | 0 <= i < |cs| :: cs[i].node == id
  {
    found := false;
    var i := 0;
    while i < |cs| && !found
      invariant 0 <= i <= |cs|
      invariant found <==> exists j | 0 <= j < i :: cs[j].node == id
    {
      found := cs[i].node == id;
      i := i + 1;
    }
  }

  /** `parents.some(p => p.node.getNode().id === id)` */
  method SomeParent(ps: seq<ParentSlot>, id: NodeId) returns (found: bool)
    ensures found <==> exists i | 0 <= i < |ps| :: ps[i].node == id
  {
    found := false;
    var i := 0;
    while i < |ps| && !found
      invariant 0 <= i <= |ps|
      invariant found <==> exists j | 0 <= j < i :: ps[j].node == id
    {
      found := ps[i].node == id;
      i := i + 1;
    }
  }

  /** `parents.find(p => p.node.getNode().id === caller)`, as the index of the slot found, or -1. */
  method FindSlot(ps: seq<ParentSlot>, caller: NodeId) returns (i: int)
    ensures -1 <= i < |ps|
    ensures 0 <= i ==> FirstSlotOf(ps, i, caller)
    ensures i == -1 ==> forall j | 0 <= j < |ps| :: ps[j].node != caller
  {
    i := 0;
    while i < |ps| && ps[i].node != caller
      invariant 0 <= i <= |ps|
      invariant forall j | 0 <= j < i :: ps[j].node != caller
    {
      i := i + 1;
    }
    if i == |ps| {
      i := -1;
    }
  }

  /** `parents.some(p => p.value === undefined)` */
  method SomeUndelivered(ps: seq<ParentSlot>) returns (waiting: bool)
    ensures waiting <==> !AllDelivered(ps)
  {
    waiting := false;
    var i := 0;
    while i < |ps| && !waiting
      invariant 0 <= i <= |ps|
      invariant waiting <==> exists j | 0 <= j < i :: ps[j].value.None?
    {
      waiting := ps[i].value.None?;
      i := i + 1;
    }
  }

  class ExecutableNodeMap {
    /** Every executable node of the execution, by node id. */
    var nodes: Arena
    /** The logs and node statuses streamed so far, in order. */
    var trace: seq<Event>

    constructor (initial: Arena)
      ensures nodes == initial && trace == []
    {
      nodes := initial;
      trace := [];
    }

    ghost function State(): Engine
      reads this
    {
      Engine(nodes, trace)
    }

    /** `addParent` on node `id`. */
    method AddParent(id: NodeId, parent: NodeId, connections: seq<Edge>)
      requires id in nodes
      modifies this
      ensures nodes == NodeProtocol.AddParent(old(nodes), id, parent, connections)
      ensures trace == old(trace)
    {
      var n := nodes[id];
      var registered := SomeParent(n.parents, parent);
      if !registered {
        nodes := nodes[id := n.(parents := n.parents + [ParentSlot(parent, connections, None)])];
      }
    }

    /** `addChild` on node `parent`: a new child is pushed, and then told to register `parent`. */
    method AddChild(parent: NodeId, child: NodeId, connections: seq<Edge>)
      requires parent in nodes && child in nodes
      modifies this
      ensures nodes == NodeProtocol.AddChild(old(nodes), parent, child, connections)
      ensures trace == old(trace)
    {
      var n := nodes[parent];
      var registered := SomeChild(n.children, child);
      if !registered {
        nodes := nodes[parent := n.(children := n.children + [ChildLink(child, connections)])];
        AddParent(child, parent, connections);
      }
    }

    /** `collectParentResults` on node `id`: the nested `forEach` over parents and their connections. */
    method CollectParentResults(id: NodeId) returns (out: Inputs)
      requires id in nodes && AllDelivered(nodes[id].parents)
      ensures out == Collect(nodes[id].parents)
    {
      var ps := nodes[id].parents;
      out := [];
      var i := 0;
      while i < |ps|
        invariant 0 <= i <= |ps|
        invariant AllDelivered(ps[..i])
        invariant out == Apply([], Writes(ps[..i]))
      {
        var conns := ps[i].connections;
        var v := ps[i].value.value;
        var j := 0;
        assert Writes(ps[..i]) + SlotWrites(v, conns[..0]) == Writes(ps[..i]);
        while j < |conns|
          invariant 0 <= j <= |conns|
          invariant out == Apply([], Writes(ps[..i]) + SlotWrites(v, conns[..j]))
        {
          var w := Write(conns[j].targetHandle, ValueAt(v, conns[j].sourceHandle));
          PutIsApply([], Writes(ps[..i]) + SlotWrites(v, conns[..j]), w);
          SlotWritesStep(Writes(ps[..i]), v, conns, j);
          out := Put(out, conns[j].targetHandle, ValueAt(v, conns[j].sourceHandle));
          j := j + 1;
        }
        assert conns[..j] == conns;
        WritesStep(ps, i);
        i := i + 1;
      }
      assert ps[..i] == ps;
    }

    /** `run` of node `id`: `ExecutableNode.run`, or its `LoopExecutable` override. */
    method Run(id: NodeId, inputs: Inputs, ghost rank: NodeId -> nat) returns (err: Option<RunError>)
      requires WellFormed(nodes, rank) && id in nodes
      modifies this
      ensures NodeRun.Run(old(State()), id, inputs, rank) == Step(State(), err)
      decreases rank(id), 3, 1
    {
      if nodes[id].kind == Plain {
        err := RunPlain(id, inputs, rank);
      } else {
        err := RunLoop(id, inputs, rank);
      }
    }

    /** `ExecutableNode.run`: the executor, `{success: true}`, the children; `{success: false}` on any failure. */
    method RunPlain(id: NodeId, inputs: Inputs, ghost rank: NodeId -> nat) returns (err: Option<RunError>)
      requires WellFormed(nodes, rank) && id in nodes && nodes[id].kind == Plain
      modifies this
      ensures NodeRun.Run(old(State()), id, inputs, rank) == Step(State(), err)
      decreases rank(id), 3, 0
    {
      var n := nodes[id];
      var x := n.executor(inputs, n.serialized.config, n.serialized);
      trace := trace + LogEvents(x.logs);
      match x.outputs
      case Err(msg) =>
        trace := trace + [Status(false, id)];
        err := Some(ExecutorFailed(id, msg));
      case Ok(outs) =>
        trace := trace + [Status(true, id)];
        err := CallChildren(id, outs, rank);
        if err.Some? {
          trace := trace + [Status(false, id)];
        }
    }

    /** `LoopExecutable.run`: `callChildren([val])` for each element in order, then one status. */
    method RunLoop(id: NodeId, inputs: Inputs, ghost rank: NodeId -> nat) returns (err: Option<RunError>)
      requires WellFormed(nodes, rank) && id in nodes && nodes[id].kind == Loop
      modifies this
      ensures NodeRun.Run(old(State()), id, inputs, rank) == Step(State(), err)
      decreases rank(id), 3, 0
    {
      var n := nodes[id];
      var x := n.executor(inputs, n.serialized.config, n.serialized);
      trace := trace + LogEvents(x.logs);
      var loopArray := LoopItems(id, x.outputs);
      if loopArray.Err? {
        trace := trace + [Status(false, id)];
        return Some(loopArray.error);
      }
      var items := loopArray.value;
      ghost var logged := State();
      err := None;
      var k := 0;
      while k < |items| && err.None?
        invariant 0 <= k <= |items|
        invariant WellFormed(nodes, rank) && id in nodes
        invariant err.None? ==> Iterate(logged, id, items, rank) == Iterate(State(), id, items[k..], rank)
        invariant err.Some? ==> Iterate(logged, id, items, rank) == Step(State(), err)
        decreases |items| - k
      {
        ghost var before := State();
        assert items[k..][0] == items[k];
        IterateStep(before, id, items[k..], rank);
        err := CallChildren(id, [items[k]], rank);
        assert items[k..][1..] == items[k + 1..];
        k := k + 1;
      }
      if err.None? {
        trace := trace + [Status(true, id)];
      } else {
        trace := trace + [Status(false, id)];
      }
    }

    /** `callChildren(outputs)` of node `id`: store `results`, then call every child in order. */
    method CallChildren(id: NodeId, outs: seq<IOValue>, ghost rank: NodeId -> nat) returns (err: Option<RunError>)
      requires WellFormed(nodes, rank) && id in nodes
      modifies this
      ensures NodeRun.CallChildren(old(State()), id, outs, rank) == Step(State(), err)
      decreases rank(id), 1, 0
    {
      ghost var e0 := State();
      var n := nodes[id];
      nodes := nodes[id := n.(results := outs)];
      assert Keeps(n, nodes[id]);
      assert Evolves(e0.nodes, nodes);
      EvolvesWellFormed(e0.nodes, nodes, rank);
      var kids := n.children;
      assert ChildrenBelow(nodes, kids, rank(id), rank);
      ghost var e1 := State();
      err := None;
      var k := 0;
      while k < |kids|
        invariant 0 <= k <= |kids|
        invariant WellFormed(nodes, rank) && ChildrenBelow(nodes, kids[k..], rank(id), rank)
        invariant CallEach(e1, id, outs, kids, rank).engine == CallEach(State(), id, outs, kids[k..], rank).engine
        invariant CallEach(e1, id, outs, kids, rank).error ==
          if err.Some? then err else CallEach(State(), id, outs, kids[k..], rank).error
      {
        ghost var before := State();
        assert kids[k..][0] == kids[k];
        CallEachStep(before, id, outs, kids[k..], rank);
        var childErr := OnParentCalling(kids[k].node, id, outs, rank);
        if err.None? {
          err := childErr;
        }
        assert kids[k..][1..] == kids[k + 1..];
        k := k + 1;
      }
    }

    /** `onParentCalling(caller, value)` on node `id`. */
    method OnParentCalling(id: NodeId, caller: NodeId, value: seq<IOValue>, ghost rank: NodeId -> nat) returns (err: Option<RunError>)
      requires WellFormed(nodes, rank) && id in nodes
      modifies this
      ensures NodeRun.OnParentCalling(old(State()), id, caller, value, rank) == Step(State(), err)
      decreases rank(id), 4, 0
    {
      ghost var e0 := State();
      var n := nodes[id];
      var ps := n.parents;
      var i := FindSlot(ps, caller);
      if 0 <= i {
        ps := ps[i := ps[i].(value := Some(value))];
      }
      DeliverIsFirstSlotWrite(n.parents, caller, value, i, ps);
      nodes := nodes[id := n.(parents := ps)];
      assert Keeps(n, nodes[id]);
      assert Evolves(e0.nodes, nodes);
      EvolvesWellFormed(e0.nodes, nodes, rank);
      var waiting := SomeUndelivered(ps);
      if waiting {
        err := None;
      } else {
        var inputs := CollectParentResults(id);
        err := Run(id, inputs, rank);
      }
    }
  }

  /** One more connection of a slot adds its write at the end. */
  lemma SlotWritesStep(pre: seq<Write>, v: seq<IOValue>, conns: seq<Edge>, j: nat)
    requires j < |conns|
    ensures pre + SlotWrites(v, conns[..j + 1]) ==
      pre + SlotWrites(v, conns[..j]) + [Write(conns[j].targetHandle, ValueAt(v, conns[j].sourceHandle))]
  {
    assert conns[..j + 1][..j] == conns[..j];
  }

  /** One more slot adds its writes at the end. */
  lemma WritesStep(ps: seq<ParentSlot>, i: nat)
    requires i < |ps| && AllDelivered(ps)
    ensures AllDelivered(ps[..i]) && AllDelivered(ps[..i + 1])
    ensures Writes(ps[..i + 1]) == Writes(ps[..i]) + SlotWrites(ps[i].value.value, ps[i].connections)
  {
    assert ps[..i + 1] == ps[..i] + [ps[i]];
    WritesConcat(ps[..i], ps[i]);
  }

  /** One more write is one more `Put`. */
  lemma PutIsApply(out: Inputs, ws: seq<Write>, w: Write)
    ensures Apply(out, ws + [w]) == Put(Apply(out, ws), w.target, w.value)
  {
    ApplyConcat(out, ws, [w]);
    assert [w][1..] == [];
  }

  /** Writing the slot `FindSlot` found, if any, is `Deliver`. */
  lemma DeliverIsFirstSlotWrite(ps: seq<ParentSlot>, caller: NodeId, v: seq<IOValue>, i: int, r: seq<ParentSlot>)
    requires -1 <= i < |ps|
    requires 0 <= i ==> FirstSlotOf(ps, i, caller) && r == ps[i := ps[i].(value := Some(v))]
    requires i == -1 ==> (forall j | 0 <= j < |ps| :: ps[j].node != caller) && r == ps
    ensures r == Deliver(ps, caller, v)
  {
    var d := Deliver(ps, caller, v);
    forall j | 0 <= j < |ps| ensures d[j] == r[j] {
      assert FirstSlotOf(ps, j, caller) <==> j == i;
    }
  }
}
