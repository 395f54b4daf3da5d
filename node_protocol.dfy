/**
 * The bookkeeping of one executable node (`ExecutableNode` in the flow runtime, and its older copy
 * in the Electron blueprint service): registering parents and children, storing the value a parent
 * delivers, the barrier that waits for every parent, and the assembly of the input array from the
 * parents' outputs by edge handles.
 *
 * Executable nodes refer to each other by node id: the runtime keeps them in an id-keyed map and
 * compares them by `getNode().id`, so the model keeps them in an `Arena` keyed by id.
 */
module NodeProtocol {
  import opened Types

  /** `ExecutableNode` or its `LoopExecutable` subclass. */
  datatype NodeKind = Plain | Loop

  /** An entry of `children`: the child's id and the edges from this node to it. */
  datatype ChildLink = ChildLink(node: NodeId, connections: seq<Edge>)

  /** An entry of `parents`: the parent's id, its edges to this node and the value it last delivered. */
  datatype ParentSlot = ParentSlot(node: NodeId, connections: seq<Edge>, value: Option<seq<IOValue>>)

  datatype ExecNode = ExecNode(
    kind: NodeKind,
    executor: Executor,
    serialized: SerializedNode,
    children: seq<ChildLink>,
    parents: seq<ParentSlot>,
    results: seq<IOValue>)

  type Arena = map<NodeId, ExecNode>

  /** A freshly constructed executable node: no children, no parents, empty `results`. */
  function NewNode(kind: NodeKind, executor: Executor, serialized: SerializedNode): (n: ExecNode)
    ensures n.children == [] && n.parents == [] && n.results == []
    ensures n.kind == kind && n.serialized == serialized
  {
    ExecNode(kind, executor, serialized, [], [], [])
  }

  // ---------------------------------------------------------------------------------------------
  // Registration

  /** `children.some(p => p.node.getNode().id === id)` */
  predicate HasChild(n: ExecNode, id: NodeId) {
    exists i | 0 <= i < |n.children| :: n.children[i].node == id
  }

  /** `parents.some(p => p.node.getNode().id === id)` */
  predicate HasParent(n: ExecNode, id: NodeId) {
    exists i | 0 <= i < |n.parents| :: n.parents[i].node == id
  }

  /** The connections recorded for child `id` (the first entry with that id), if any. */
  function ChildConnections(n: ExecNode, id: NodeId): (r: Option<seq<Edge>>)
    ensures r.Some? <==> HasChild(n, id)
  {
    ChildConnectionsFrom(n.children, id)
  }

  function ChildConnectionsFrom(cs: seq<ChildLink>, id: NodeId): (r: Option<seq<Edge>>)
    ensures r.Some? <==> exists i | 0 <= i < |cs| :: cs[i].node == id
  {
    if cs == [] then None
    else if cs[0].node == id then Some(cs[0].connections)
    else
      var r := ChildConnectionsFrom(cs[1..], id);
      assert forall i | 1 <= i < |cs| :: cs[i] == cs[1..][i - 1];
      r
  }

  /** The connections recorded for parent `id` (the first slot with that id), if any. */
  function ParentConnections(n: ExecNode, id: NodeId): (r: Option<seq<Edge>>)
    ensures r.Some? <==> HasParent(n, id)
  {
    ParentConnectionsFrom(n.parents, id)
  }

  function ParentConnectionsFrom(ps: seq<ParentSlot>, id: NodeId): (r: Option<seq<Edge>>)
    ensures r.Some? <==> exists i | 0 <= i < |ps| :: ps[i].node == id
  {
    if ps == [] then None
    else if ps[0].node == id then Some(ps[0].connections)
    else
      var r := ParentConnectionsFrom(ps[1..], id);
      assert forall i | 1 <= i < |ps| :: ps[i] == ps[1..][i - 1];
      r
  }

  lemma {:induction false} ChildConnectionsAppend(cs: seq<ChildLink>, c: ChildLink, id: NodeId)
    ensures ChildConnectionsFrom(cs + [c], id) ==
      if ChildConnectionsFrom(cs, id).Some? then ChildConnectionsFrom(cs, id)
      else if c.node == id then Some(c.connections) else None
  {
    if cs != [] {
      assert (cs + [c])[1..] == cs[1..] + [c];
      ChildConnectionsAppend(cs[1..], c, id);
    } else {
      assert [c][1..] == [];
    }
  }

  lemma {:induction false} ParentConnectionsAppend(ps: seq<ParentSlot>, p: ParentSlot, id: NodeId)
    ensures ParentConnectionsFrom(ps + [p], id) ==
      if ParentConnectionsFrom(ps, id).Some? then ParentConnectionsFrom(ps, id)
      else if p.node == id then Some(p.connections) else None
  {
    if ps != [] {
      assert (ps + [p])[1..] == ps[1..] + [p];
      ParentConnectionsAppend(ps[1..], p, id);
    } else {
      assert [p][1..] == [];
    }
  }

  /** `addParent`: a parent id that is not yet registered gets a new slot with no value. */
  function AddParent(a: Arena, id: NodeId, parent: NodeId, connections: seq<Edge>): (r: Arena)
    requires id in a
    ensures r.Keys == a.Keys
    ensures forall other | other in a && other != id :: r[other] == a[other]
    ensures HasParent(r[id], parent)
    ensures r[id].children == a[id].children
  {
    var n := a[id];
    if HasParent(n, parent) then a
    else
      var n' := n.(parents := n.parents + [ParentSlot(parent, connections, None)]);
      assert n'.parents[|n.parents|].node == parent;
      a[id := n']
  }

  /** `addChild`: a child id that is not yet registered is appended and told to register this node as its parent. */
  function AddChild(a: Arena, parent: NodeId, child: NodeId, connections: seq<Edge>): (r: Arena)
    requires parent in a && child in a
    ensures r.Keys == a.Keys
    ensures forall other | other in a && other != parent && other != child :: r[other] == a[other]
    ensures HasChild(r[parent], child)
    ensures !HasChild(a[parent], child) ==> HasParent(r[child], parent)
  {
    var n := a[parent];
    if HasChild(n, child) then
      a
    else
      var n' := n.(children := n.children + [ChildLink(child, connections)]);
      assert n'.children[|n.children|].node == child;
      AddParent(a[parent := n'], child, parent, connections)
  }

  /** Ids occur at most once among a node's children and at most once among its parents. */
  ghost predicate NoDuplicates(n: ExecNode) {
    && (forall i, j | 0 <= i < j < |n.children| :: n.children[i].node != n.children[j].node)
    && (forall i, j | 0 <= i < j < |n.parents| :: n.parents[i].node != n.parents[j].node)
  }

  /**
   * The arena is linked symmetrically: node `c` is a child of `p` exactly when `p` is a parent of
   * `c`, with the same connections on both sides, and every link names a node of the arena.
   */
  ghost predicate Linked(a: Arena) {
    Symmetric(a) && LinksInArena(a)
  }

  ghost predicate Symmetric(a: Arena) {
    forall p, c | p in a && c in a :: ChildConnections(a[p], c) == ParentConnections(a[c], p)
  }

  ghost predicate LinksInArena(a: Arena) {
    forall id | id in a :: NodeLinksIn(a[id], a.Keys)
  }

  ghost predicate NodeLinksIn(n: ExecNode, ids: set<NodeId>) {
    && (forall i | 0 <= i < |n.children| :: n.children[i].node in ids)
    && (forall j | 0 <= j < |n.parents| :: n.parents[j].node in ids)
  }

  ghost predicate Registered(a: Arena) {
    Linked(a) && forall id | id in a :: NoDuplicates(a[id])
  }

  /** A map of freshly constructed nodes is registered. */
  lemma FreshRegistered(a: Arena)
    requires forall id | id in a :: a[id].children == [] && a[id].parents == []
    ensures Registered(a)
  {
  }

  /** `addParent` is idempotent by parent id, whatever connections the second call passes. */
  lemma AddParentIdempotent(a: Arena, id: NodeId, parent: NodeId, c1: seq<Edge>, c2: seq<Edge>)
    requires id in a
    ensures AddParent(AddParent(a, id, parent, c1), id, parent, c2) == AddParent(a, id, parent, c1)
  {
  }

  /** A new parent slot is appended last, holds the given connections and starts without a value. */
  lemma AddParentAppends(a: Arena, id: NodeId, parent: NodeId, connections: seq<Edge>)
    requires id in a && !HasParent(a[id], parent)
    ensures var n := AddParent(a, id, parent, connections)[id];
      n.parents == a[id].parents + [ParentSlot(parent, connections, None)] &&
      n.(parents := a[id].parents) == a[id]
  {
  }

  /** `addChild` with an already registered child id changes nothing. */
  lemma AddChildRegisteredNoop(a: Arena, parent: NodeId, child: NodeId, connections: seq<Edge>)
    requires parent in a && child in a && HasChild(a[parent], child)
    ensures AddChild(a, parent, child, connections) == a
  {
  }

  /** `addChild` is idempotent by child id, whatever connections the second call passes. */
  lemma AddChildIdempotent(a: Arena, parent: NodeId, child: NodeId, c1: seq<Edge>, c2: seq<Edge>)
    requires parent in a && child in a
    ensures AddChild(AddChild(a, parent, child, c1), parent, child, c2) == AddChild(a, parent, child, c1)
  {
  }

  /**
   * On a registered arena, a new child is appended to the parent's children and the parent gets
   * a new empty slot in the child, both with the given connections.
   */
  lemma AddChildAppends(a: Arena, parent: NodeId, child: NodeId, connections: seq<Edge>)
    requires parent in a && child in a && Registered(a) && !HasChild(a[parent], child)
    ensures var r := AddChild(a, parent, child, connections);
      && r[parent].children == a[parent].children + [ChildLink(child, connections)]
      && r[child].parents == a[child].parents + [ParentSlot(parent, connections, None)]
  {
    assert ChildConnections(a[parent], child) == None;
  }

  /** The arena after `addChild` registers a new child: the parent's child list and the child's parent list each grow by one entry. */
  lemma AddChildShape(a: Arena, parent: NodeId, child: NodeId, connections: seq<Edge>, id: NodeId)
    requires parent in a && child in a && id in a && !HasChild(a[parent], child) && !HasParent(a[child], parent)
    ensures var r := AddChild(a, parent, child, connections);
      && r[id].children == (if id == parent then a[id].children + [ChildLink(child, connections)] else a[id].children)
      && r[id].parents == (if id == child then a[id].parents + [ParentSlot(parent, connections, None)] else a[id].parents)
  {
  }

  /** One pair of nodes stays symmetrically linked through `addChild`. */
  lemma AddChildKeepsPairLinked(a: Arena, parent: NodeId, child: NodeId, connections: seq<Edge>, p: NodeId, c: NodeId)
    requires parent in a && child in a && Symmetric(a) && !HasChild(a[parent], child)
    requires p in a && c in a
    ensures var r := AddChild(a, parent, child, connections);
      ChildConnections(r[p], c) == ParentConnections(r[c], p)
  {
    assert ChildConnections(a[parent], child) == None;
    AddChildShape(a, parent, child, connections, p);
    AddChildShape(a, parent, child, connections, c);
    ChildConnectionsAppend(a[parent].children, ChildLink(child, connections), c);
    ParentConnectionsAppend(a[child].parents, ParentSlot(parent, connections, None), p);
  }

  /** One node keeps distinct child ids and distinct parent ids through `addChild`. */
  lemma AddChildKeepsNoDuplicates(a: Arena, parent: NodeId, child: NodeId, connections: seq<Edge>, id: NodeId)
    requires parent in a && child in a && id in a && NoDuplicates(a[id])
    requires !HasChild(a[parent], child) && !HasParent(a[child], parent)
    ensures NoDuplicates(AddChild(a, parent, child, connections)[id])
  {
    AddChildShape(a, parent, child, connections, id);
    var r := AddChild(a, parent, child, connections);
    var cs, ps := r[id].children, r[id].parents;
    forall i, j | 0 <= i < j < |cs| ensures cs[i].node != cs[j].node {
      if j == |a[id].children| && id == parent {
        assert cs[i] == a[parent].children[i];
      }
    }
    forall i, j | 0 <= i < j < |ps| ensures ps[i].node != ps[j].node {
      if j == |a[id].parents| && id == child {
        assert ps[i] == a[child].parents[i];
      }
    }
  }

  /** The links of one node name nodes of the arena after `addChild`. */
  lemma AddChildKeepsLinksInArena(a: Arena, parent: NodeId, child: NodeId, connections: seq<Edge>, id: NodeId)
    requires parent in a && child in a && id in a && NodeLinksIn(a[id], a.Keys)
    requires !HasChild(a[parent], child) && !HasParent(a[child], parent)
    ensures NodeLinksIn(AddChild(a, parent, child, connections)[id], a.Keys)
  {
    AddChildShape(a, parent, child, connections, id);
    var r := AddChild(a, parent, child, connections);
    assert forall i | 0 <= i < |a[id].children| :: r[id].children[i] == a[id].children[i];
    assert forall j | 0 <= j < |a[id].parents| :: r[id].parents[j] == a[id].parents[j];
  }

  /** `addChild` keeps the arena registered: symmetric links and no duplicate ids. */
  lemma AddChildKeepsRegistered(a: Arena, parent: NodeId, child: NodeId, connections: seq<Edge>)
    requires parent in a && child in a && Registered(a)
    ensures Registered(AddChild(a, parent, child, connections))
  {
    var r := AddChild(a, parent, child, connections);
    if !HasChild(a[parent], child) {
      assert ChildConnections(a[parent], child) == None;
      forall p, c | p in r && c in r ensures ChildConnections(r[p], c) == ParentConnections(r[c], p) {
        AddChildKeepsPairLinked(a, parent, child, connections, p, c);
      }
      forall id | id in r
        ensures NoDuplicates(r[id]) && NodeLinksIn(r[id], r.Keys)
      {
        AddChildKeepsNoDuplicates(a, parent, child, connections, id);
        AddChildKeepsLinksInArena(a, parent, child, connections, id);
      }
    }
  }

  // ---------------------------------------------------------------------------------------------
  // Parent values and the barrier of `onParentCalling`

  /** The slot `i` is the first one that belongs to parent `caller` (`parents.find`). */
  predicate FirstSlotOf(ps: seq<ParentSlot>, i: int, caller: NodeId)
    requires 0 <= i < |ps|
  {
    ps[i].node == caller && forall j | 0 <= j < i :: ps[j].node != caller
  }

  /** The value write of `onParentCalling`: the first slot of `caller` gets `v`; no other slot changes. */
  function Deliver(ps: seq<ParentSlot>, caller: NodeId, v: seq<IOValue>): (r: seq<ParentSlot>)
    ensures |r| == |ps|
    ensures forall i | 0 <= i < |ps| ::
      && r[i].node == ps[i].node && r[i].connections == ps[i].connections
      && r[i].value == if FirstSlotOf(ps, i, caller) then Some(v) else ps[i].value
  {
    if ps == [] then []
    else if ps[0].node == caller then [ps[0].(value := Some(v))] + ps[1..]
    else
      var rest := Deliver(ps[1..], caller, v);
      FirstSlotOfTail(ps, caller);
      [ps[0]] + rest
  }

  /** Past a slot of another parent, the first slot of `caller` is the first one in the rest. */
  lemma FirstSlotOfTail(ps: seq<ParentSlot>, caller: NodeId)
    requires ps != [] && ps[0].node != caller
    ensures forall i | 1 <= i < |ps| :: FirstSlotOf(ps, i, caller) == FirstSlotOf(ps[1..], i - 1, caller)
  {
    forall i | 1 <= i < |ps| ensures FirstSlotOf(ps, i, caller) == FirstSlotOf(ps[1..], i - 1, caller) {
      assert forall j | 1 <= j < i :: ps[j] == ps[1..][j - 1];
    }
  }

  /** No slot is still `undefined`: the condition under which `onParentCalling` runs the node. */
  predicate AllDelivered(ps: seq<ParentSlot>) {
    forall i | 0 <= i < |ps| :: ps[i].value.Some?
  }

  /** A caller that is not a registered parent changes no slot. */
  lemma DeliverUnregistered(ps: seq<ParentSlot>, caller: NodeId, v: seq<IOValue>)
    requires forall i | 0 <= i < |ps| :: ps[i].node != caller
    ensures Deliver(ps, caller, v) == ps
  {
    var r := Deliver(ps, caller, v);
    assert forall i | 0 <= i < |ps| :: r[i] == ps[i];
  }

  /** Slots are never cleared: once every slot holds a value, every later delivery leaves them all filled. */
  lemma DeliverKeepsAllDelivered(ps: seq<ParentSlot>, caller: NodeId, v: seq<IOValue>)
    requires AllDelivered(ps)
    ensures AllDelivered(Deliver(ps, caller, v))
  {
  }

  /** Several calls of `onParentCalling`, in order: `(caller, value)` pairs. */
  function DeliverAll(ps: seq<ParentSlot>, calls: seq<(NodeId, seq<IOValue>)>): (r: seq<ParentSlot>)
    ensures |r| == |ps|
    ensures forall i | 0 <= i < |ps| :: r[i].node == ps[i].node && r[i].connections == ps[i].connections
    decreases |calls|
  {
    if calls == [] then ps else DeliverAll(Deliver(ps, calls[0].0, calls[0].1), calls[1..])
  }

  predicate Called(calls: seq<(NodeId, seq<IOValue>)>, id: NodeId) {
    exists k | 0 <= k < |calls| :: calls[k].0 == id
  }

  /** With distinct parent ids, a slot is filled after a series of calls iff it was filled before or its parent called. */
  lemma {:induction false} DeliverAllFills(ps: seq<ParentSlot>, calls: seq<(NodeId, seq<IOValue>)>, i: nat)
    requires i < |ps|
    requires forall j, k | 0 <= j < k < |ps| :: ps[j].node != ps[k].node
    ensures DeliverAll(ps, calls)[i].value.Some? <==> ps[i].value.Some? || Called(calls, ps[i].node)
    decreases |calls|
  {
    if calls != [] {
      var ps1 := Deliver(ps, calls[0].0, calls[0].1);
      DeliverAllFills(ps1, calls[1..], i);
      assert FirstSlotOf(ps, i, calls[0].0) <==> ps[i].node == calls[0].0;
      if Called(calls[1..], ps[i].node) {
        var k :| 0 <= k < |calls[1..]| && calls[1..][k].0 == ps[i].node;
        assert calls[k + 1].0 == ps[i].node;
      }
      if Called(calls, ps[i].node) && calls[0].0 != ps[i].node {
        var k :| 0 <= k < |calls| && calls[k].0 == ps[i].node;
        assert calls[1..][k - 1].0 == ps[i].node;
      }
    }
  }

  /**
   * The AND-barrier: starting from empty slots with distinct parent ids, the node's condition to
   * run holds after a series of calls exactly when every registered parent has called at least once.
   */
  lemma BarrierOpensIffAllParentsCalled(ps: seq<ParentSlot>, calls: seq<(NodeId, seq<IOValue>)>)
    requires forall j, k | 0 <= j < k < |ps| :: ps[j].node != ps[k].node
    requires forall j | 0 <= j < |ps| :: ps[j].value == None
    ensures AllDelivered(DeliverAll(ps, calls)) <==> forall j | 0 <= j < |ps| :: Called(calls, ps[j].node)
  {
    forall j | 0 <= j < |ps| ensures DeliverAll(ps, calls)[j].value.Some? <==> Called(calls, ps[j].node) {
      DeliverAllFills(ps, calls, j);
    }
  }

  // ---------------------------------------------------------------------------------------------
  // Input assembly (`collectParentResults`)

  /** Reading index `h` of a JavaScript array: out of range, or a hole, reads as `undefined`. */
  function Get<T>(s: seq<Option<T>>, h: nat): Option<T> {
    if h < |s| then s[h] else None
  }

  /** `value[sourceHandle]` on a delivered output array. */
  function ValueAt(v: seq<IOValue>, h: nat): (r: Option<IOValue>)
    ensures r.Some? <==> h < |v|
    ensures h < |v| ==> r == Some(v[h])
  {
    if h < |v| then Some(v[h]) else None
  }

  /** The JavaScript assignment `out[k] = v`: the array grows to length `k + 1`, with holes in between. */
  function Put(out: Inputs, k: nat, v: Option<IOValue>): (r: Inputs)
    ensures |r| == if k < |out| then |out| else k + 1
    ensures forall h: nat :: Get(r, h) == if h == k then v else Get(out, h)
  {
    if k < |out| then out[k := v] else out + seq(k - |out|, _ => None) + [v]
  }

  /** One write of a target handle. */
  datatype Write = Write(target: nat, value: Option<IOValue>)

  function SlotWrites(v: seq<IOValue>, conns: seq<Edge>): (r: seq<Write>)
    ensures |r| == |conns|
    ensures forall k | 0 <= k < |conns| :: r[k] == Write(conns[k].targetHandle, ValueAt(v, conns[k].sourceHandle))
  {
    if conns == [] then []
    else SlotWrites(v, conns[..|conns| - 1]) + [Write(conns[|conns| - 1].targetHandle, ValueAt(v, conns[|conns| - 1].sourceHandle))]
  }

  /** Every write of the nested `forEach`, in parents order and then connections order. */
  function Writes(ps: seq<ParentSlot>): seq<Write>
    requires AllDelivered(ps)
  {
    if ps == [] then []
    else Writes(ps[..|ps| - 1]) + SlotWrites(ps[|ps| - 1].value.value, ps[|ps| - 1].connections)
  }

  /** Performs the writes in order on `out`. */
  function Apply(out: Inputs, ws: seq<Write>): Inputs
    decreases |ws|
  {
    if ws == [] then out else Apply(Put(out, ws[0].target, ws[0].value), ws[1..])
  }

  /** `collectParentResults`. Only called once every slot holds a value. */
  function Collect(ps: seq<ParentSlot>): Inputs
    requires AllDelivered(ps)
  {
    Apply([], Writes(ps))
  }

  /** The value of the last write to handle `h`, if there is one. */
  function LastWrite(ws: seq<Write>, h: nat): Option<Option<IOValue>> {
    if ws == [] then None
    else if ws[|ws| - 1].target == h then Some(ws[|ws| - 1].value)
    else LastWrite(ws[..|ws| - 1], h)
  }

  /** The largest target handle plus one, or 0 without writes. */
  function WrittenLength(ws: seq<Write>): nat {
    if ws == [] then 0
    else
      var n := WrittenLength(ws[..|ws| - 1]);
      if ws[|ws| - 1].target + 1 > n then ws[|ws| - 1].target + 1 else n
  }

  lemma {:induction false} ApplyConcat(out: Inputs, a: seq<Write>, b: seq<Write>)
    ensures Apply(out, a + b) == Apply(Apply(out, a), b)
    decreases |a|
  {
    if a != [] {
      assert (a + b)[1..] == a[1..] + b;
      ApplyConcat(Put(out, a[0].target, a[0].value), a[1..], b);
    } else {
      assert a + b == b;
    }
  }

  /**
   * Last write wins: after the writes, index `h` holds the value of the last write to `h`, and keeps
   * its old value when nothing wrote it; the array is as long as the largest handle written needs.
   */
  lemma {:induction false} ApplyLastWriteWins(out: Inputs, ws: seq<Write>, h: nat)
    ensures Get(Apply(out, ws), h) == match LastWrite(ws, h) case Some(v) => v case None => Get(out, h)
    ensures |Apply(out, ws)| == if |out| > WrittenLength(ws) then |out| else WrittenLength(ws)
    decreases |ws|
  {
    if ws != [] {
      var init := ws[..|ws| - 1];
      var w := ws[|ws| - 1];
      assert ws == init + [w];
      ApplyConcat(out, init, [w]);
      ApplyLastWriteWins(out, init, h);
      var mid := Apply(out, init);
      assert Apply(mid, [w]) == Apply(Put(mid, w.target, w.value), []);
    }
  }

  lemma {:induction false} WritesConcat(ps: seq<ParentSlot>, p: ParentSlot)
    requires AllDelivered(ps) && p.value.Some?
    ensures AllDelivered(ps + [p])
    ensures Writes(ps + [p]) == Writes(ps) + SlotWrites(p.value.value, p.connections)
  {
    assert (ps + [p])[..|ps|] == ps;
  }

  /**
   * `collectParentResults` puts at target handle `h` the source value of the last parent edge
   * (in parents and then connections order) whose target handle is `h`; an index no edge targets is
   * `undefined`, and the array ends right after the largest target handle.
   */
  lemma CollectLastEdgeWins(ps: seq<ParentSlot>, h: nat)
    requires AllDelivered(ps)
    ensures Get(Collect(ps), h) == match LastWrite(Writes(ps), h) case Some(v) => v case None => None
    ensures |Collect(ps)| == WrittenLength(Writes(ps))
  {
    ApplyLastWriteWins([], Writes(ps), h);
  }

  /** The last write to a handle within one parent's connections is that parent's last edge to the handle. */
  lemma {:induction false} SlotWritesLast(v: seq<IOValue>, conns: seq<Edge>, h: nat, k: nat)
    requires k < |conns| && conns[k].targetHandle == h
    requires forall k' | k < k' < |conns| :: conns[k'].targetHandle != h
    ensures LastWrite(SlotWrites(v, conns), h) == Some(ValueAt(v, conns[k].sourceHandle))
    decreases |conns|
  {
    if k < |conns| - 1 {
      SlotWritesLast(v, conns[..|conns| - 1], h, k);
      assert SlotWrites(v, conns)[..|conns| - 1] == SlotWrites(v, conns[..|conns| - 1]);
    }
  }
}
