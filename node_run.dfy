/**
 * What `run`, `callChildren` and `onParentCalling` of an executable node do, and the loop variant
 * `LoopExecutable.run`, as functions of an `Engine`: the arena of nodes plus the event trace that
 * `streamLog` and `streamNodeStatus` append to.
 *
 * `Promise.all` over the children is modelled as one legal schedule: the children are called one
 * after another in `children` order, every child is called even when an earlier one failed, and
 * the aggregate failure is the first child's failure.
 */
module NodeRun {
  import opened Types
  import opened NodeProtocol

  /** What a run rethrows. */
  datatype RunError =
    | ExecutorFailed(nodeId: NodeId, message: string)
    | MissingArray(nodeId: NodeId)        // 'Could not run loop. Missing array'
    | MalformedLoopOutput(nodeId: NodeId) // the loop executor's first output has no iterable `value`

  datatype Engine = Engine(nodes: Arena, trace: seq<Event>)

  /** The engine after an operation, and what the operation's promise rejected with, if anything. */
  datatype Step = Step(engine: Engine, error: Option<RunError>)

  /** Every child link names a node of the arena that is ranked below its parent. */
  ghost predicate WellFormed(a: Arena, rank: NodeId -> nat) {
    forall id | id in a :: ChildrenBelow(a, a[id].children, rank(id), rank)
  }

  ghost predicate ChildrenBelow(a: Arena, cs: seq<ChildLink>, bound: nat, rank: NodeId -> nat) {
    forall i | 0 <= i < |cs| :: cs[i].node in a && rank(cs[i].node) < bound
  }

  /**
   * Running changes no node's kind, executor, serialized node, children or parent links, and never
   * clears a parent slot: only slot values and `results` change.
   */
  ghost predicate Evolves(a: Arena, b: Arena) {
    a.Keys == b.Keys && forall id | id in a :: Keeps(a[id], b[id])
  }

  ghost predicate Keeps(m: ExecNode, n: ExecNode) {
    && m.kind == n.kind && m.executor == n.executor && m.serialized == n.serialized
    && m.children == n.children && |m.parents| == |n.parents|
    && forall i | 0 <= i < |m.parents| ::
      && n.parents[i].node == m.parents[i].node
      && n.parents[i].connections == m.parents[i].connections
      && (m.parents[i].value.Some? ==> n.parents[i].value.Some?)
  }

  lemma EvolvesTransitive(a: Arena, b: Arena, c: Arena)
    requires Evolves(a, b) && Evolves(b, c)
    ensures Evolves(a, c)
  {
    forall id | id in a ensures Keeps(a[id], c[id]) {
      assert Keeps(a[id], b[id]) && Keeps(b[id], c[id]);
    }
  }

  lemma EvolvesWellFormed(a: Arena, b: Arena, rank: NodeId -> nat)
    requires WellFormed(a, rank) && Evolves(a, b)
    ensures WellFormed(b, rank)
  {
    forall id | id in b ensures ChildrenBelow(b, b[id].children, rank(id), rank) {
      assert Keeps(a[id], b[id]);
      assert ChildrenBelow(a, a[id].children, rank(id), rank);
    }
  }

  function Emit(e: Engine, ev: Event): Engine {
    Engine(e.nodes, e.trace + [ev])
  }

  /** The `catch` of `run`: stream `{success: false}` and rethrow. */
  function Fail(e: Engine, id: NodeId, err: RunError): Step {
    Step(Emit(e, Status(false, id)), Some(err))
  }

  /**
   * `const [array] = await executor(...)`, then `if (!array.value) throw ...` and `for (const val of array.value)`:
   * an array output gives its items; an output whose `value` is absent or falsy gives the missing-array
   * error; no output at all, or a truthy `value` that cannot be iterated, give a type error.
   */
  function LoopItems(id: NodeId, outputs: Result<seq<IOValue>, string>): (r: Result<seq<IOValue>, RunError>)
    ensures r.Ok? <==> outputs.Ok? && |outputs.value| > 0 && outputs.value[0].ArrayValue?
    ensures r.Ok? ==> r.value == outputs.value[0].items
    ensures outputs.Err? ==> r == Err(ExecutorFailed(id, outputs.error))
  {
    match outputs
    case Err(msg) => Err(ExecutorFailed(id, msg))
    case Ok(outs) =>
      if |outs| == 0 then Err(MalformedLoopOutput(id))
      else
        match outs[0]
        case ArrayValue(_, items) => Ok(items)
        case VoidValue => Err(MissingArray(id))
        case InheritValue => Err(MissingArray(id))
        case BooleanValue(b) => if b then Err(MalformedLoopOutput(id)) else Err(MissingArray(id))
        case NumberValue(n) => if n != 0 then Err(MalformedLoopOutput(id)) else Err(MissingArray(id))
        case StringValue(s) => if s != "" then Err(MalformedLoopOutput(id)) else Err(MissingArray(id))
  }

  /** The executor's invocation for node `n`: inputs, the node's own configuration, the node. */
  function Invoke(n: ExecNode, inputs: Inputs): Execution {
    n.executor(inputs, n.serialized.config, n.serialized)
  }

  /** `run(inputs)` of node `id`, for both node kinds. */
  function Run(e: Engine, id: NodeId, inputs: Inputs, ghost rank: NodeId -> nat): (r: Step)
    requires WellFormed(e.nodes, rank) && id in e.nodes
    ensures Evolves(e.nodes, r.engine.nodes) && e.trace <= r.engine.trace
    decreases rank(id), 3, 0
  {
    var n := e.nodes[id];
    var x := Invoke(n, inputs);
    var logged := Engine(e.nodes, e.trace + LogEvents(x.logs));
    if n.kind == Plain then
      match x.outputs
      case Err(msg) => Fail(logged, id, ExecutorFailed(id, msg))
      case Ok(outs) =>
        var s := CallChildren(Emit(logged, Status(true, id)), id, outs, rank);
        if s.error.Some? then Fail(s.engine, id, s.error.value) else s
    else
      match LoopItems(id, x.outputs)
      case Err(err) => Fail(logged, id, err)
      case Ok(items) =>
        var s := Iterate(logged, id, items, rank);
        if s.error.Some? then Fail(s.engine, id, s.error.value) else Step(Emit(s.engine, Status(true, id)), None)
  }

  /** The `for` loop of `LoopExecutable.run`: `callChildren([val])` per item, stopping at the first failure. */
  function Iterate(e: Engine, id: NodeId, items: seq<IOValue>, ghost rank: NodeId -> nat): (r: Step)
    requires WellFormed(e.nodes, rank) && id in e.nodes
    ensures Evolves(e.nodes, r.engine.nodes) && e.trace <= r.engine.trace
    decreases rank(id), 2, |items|
  {
    if items == [] then Step(e, None)
    else
      var s := CallChildren(e, id, [items[0]], rank);
      if s.error.Some? then s
      else
        EvolvesWellFormed(e.nodes, s.engine.nodes, rank);
        var t := Iterate(s.engine, id, items[1..], rank);
        EvolvesTransitive(e.nodes, s.engine.nodes, t.engine.nodes);
        t
  }

  /** `callChildren(outputs)`: `results := outputs`, then `onParentCalling(this, outputs)` on every child. */
  function CallChildren(e: Engine, id: NodeId, outs: seq<IOValue>, ghost rank: NodeId -> nat): (r: Step)
    requires WellFormed(e.nodes, rank) && id in e.nodes
    ensures Evolves(e.nodes, r.engine.nodes) && e.trace <= r.engine.trace
    decreases rank(id), 1, 0
  {
    var n := e.nodes[id];
    var nodes := e.nodes[id := n.(results := outs)];
    assert Keeps(n, nodes[id]);
    assert Evolves(e.nodes, nodes);
    EvolvesWellFormed(e.nodes, nodes, rank);
    var s := CallEach(Engine(nodes, e.trace), id, outs, n.children, rank);
    EvolvesTransitive(e.nodes, nodes, s.engine.nodes);
    s
  }

  /** The `children.map(child => child.node.onParentCalling(this, outputs))` of `callChildren`, one child after another. */
  function CallEach(e: Engine, id: NodeId, outs: seq<IOValue>, kids: seq<ChildLink>, ghost rank: NodeId -> nat): (r: Step)
    requires WellFormed(e.nodes, rank) && ChildrenBelow(e.nodes, kids, rank(id), rank)
    ensures Evolves(e.nodes, r.engine.nodes) && e.trace <= r.engine.trace
    decreases rank(id), 0, |kids|
  {
    if kids == [] then Step(e, None)
    else
      var s1 := OnParentCalling(e, kids[0].node, id, outs, rank);
      EvolvesWellFormed(e.nodes, s1.engine.nodes, rank);
      var s2 := CallEach(s1.engine, id, outs, kids[1..], rank);
      EvolvesTransitive(e.nodes, s1.engine.nodes, s2.engine.nodes);
      Step(s2.engine, if s1.error.Some? then s1.error else s2.error)
  }

  /** `onParentCalling(caller, value)` on node `id`: store the value, then run if no slot is `undefined`. */
  function OnParentCalling(e: Engine, id: NodeId, caller: NodeId, value: seq<IOValue>, ghost rank: NodeId -> nat): (r: Step)
    requires WellFormed(e.nodes, rank) && id in e.nodes
    ensures Evolves(e.nodes, r.engine.nodes) && e.trace <= r.engine.trace
    decreases rank(id), 4, 0
  {
    var n := e.nodes[id];
    var ps := Deliver(n.parents, caller, value);
    var nodes := e.nodes[id := n.(parents := ps)];
    assert Keeps(n, nodes[id]);
    assert Evolves(e.nodes, nodes);
    EvolvesWellFormed(e.nodes, nodes, rank);
    if AllDelivered(ps) then
      var s := Run(Engine(nodes, e.trace), id, Collect(ps), rank);
      EvolvesTransitive(e.nodes, nodes, s.engine.nodes);
      s
    else Step(Engine(nodes, e.trace), None)
  }

  /** One iteration of the loop: the first element's `callChildren`, then the rest unless it failed. */
  lemma IterateStep(e: Engine, id: NodeId, items: seq<IOValue>, rank: NodeId -> nat)
    requires WellFormed(e.nodes, rank) && id in e.nodes && items != []
    ensures var s := CallChildren(e, id, [items[0]], rank);
      && WellFormed(s.engine.nodes, rank) && id in s.engine.nodes
      && Iterate(e, id, items, rank) == if s.error.Some? then s else Iterate(s.engine, id, items[1..], rank)
  {
    var s := CallChildren(e, id, [items[0]], rank);
    EvolvesWellFormed(e.nodes, s.engine.nodes, rank);
  }

  /** One child of `callChildren`: its `onParentCalling`, then the remaining children; the first failure wins. */
  lemma CallEachStep(e: Engine, id: NodeId, outs: seq<IOValue>, kids: seq<ChildLink>, rank: NodeId -> nat)
    requires WellFormed(e.nodes, rank) && ChildrenBelow(e.nodes, kids, rank(id), rank) && kids != []
    ensures kids[0].node in e.nodes && rank(kids[0].node) < rank(id)
    ensures var s1 := OnParentCalling(e, kids[0].node, id, outs, rank);
      && WellFormed(s1.engine.nodes, rank) && ChildrenBelow(s1.engine.nodes, kids[1..], rank(id), rank)
      && var s2 := CallEach(s1.engine, id, outs, kids[1..], rank);
         CallEach(e, id, outs, kids, rank) == Step(s2.engine, if s1.error.Some? then s1.error else s2.error)
  {
    var s1 := OnParentCalling(e, kids[0].node, id, outs, rank);
    EvolvesWellFormed(e.nodes, s1.engine.nodes, rank);
    forall i | 0 <= i < |kids[1..]| ensures kids[1..][i].node in s1.engine.nodes && rank(kids[1..][i].node) < rank(id) {
      assert kids[1..][i] == kids[i + 1];
    }
  }

  // ---------------------------------------------------------------------------------------------
  // The statuses a run streams

  /** The `success` flags of the statuses streamed for node `id`, in order. */
  function StatusesOf(t: seq<Event>, id: NodeId): seq<bool> {
    if t == [] then []
    else StatusesOf(t[..|t| - 1], id) + (if t[|t| - 1].Status? && t[|t| - 1].nodeId == id then [t[|t| - 1].success] else [])
  }

  lemma {:induction false} StatusesOfConcat(a: seq<Event>, b: seq<Event>, id: NodeId)
    ensures StatusesOf(a + b, id) == StatusesOf(a, id) + StatusesOf(b, id)
    decreases |b|
  {
    if b == [] {
      assert a + b == a;
    } else {
      assert (a + b)[..|a + b| - 1] == a + b[..|b| - 1];
      StatusesOfConcat(a, b[..|b| - 1], id);
    }
  }

  /** Every status in `t` is for a node of `ids`. */
  ghost predicate StatusesWithin(t: seq<Event>, ids: set<NodeId>) {
    forall i | 0 <= i < |t| :: t[i].Status? ==> t[i].nodeId in ids
  }

  lemma {:induction false} NoStatusesOutside(t: seq<Event>, ids: set<NodeId>, id: NodeId)
    requires StatusesWithin(t, ids) && id !in ids
    ensures StatusesOf(t, id) == []
    decreases |t|
  {
    if t != [] {
      NoStatusesOutside(t[..|t| - 1], ids, id);
    }
  }

  lemma {:induction false} LogEventsHaveNoStatus(logs: seq<StreamedLog>)
    ensures StatusesWithin(LogEvents(logs), {})
  {
  }

  /** The events appended from `t0` to `t2` are those from `t0` to `t1` followed by those from `t1` to `t2`. */
  lemma SegmentsWithin(t0: seq<Event>, t1: seq<Event>, t2: seq<Event>, ids: set<NodeId>)
    requires t0 <= t1 <= t2
    requires StatusesWithin(t1[|t0|..], ids) && StatusesWithin(t2[|t1|..], ids)
    ensures StatusesWithin(t2[|t0|..], ids)
  {
    forall i | 0 <= i < |t2| - |t0| ensures t2[|t0|..][i].Status? ==> t2[|t0|..][i].nodeId in ids {
      if i < |t1| - |t0| {
        assert t2[|t0|..][i] == t1[|t0|..][i];
      } else {
        assert t2[|t0|..][i] == t2[|t1|..][i - (|t1| - |t0|)];
      }
    }
  }

  /** The children of every node of `ids` are in `ids`. */
  ghost predicate ClosedUnder(a: Arena, ids: set<NodeId>) {
    forall id, i | id in a && id in ids && 0 <= i < |a[id].children| :: a[id].children[i].node in ids
  }

  lemma EvolvesClosed(a: Arena, b: Arena, ids: set<NodeId>)
    requires ClosedUnder(a, ids) && Evolves(a, b)
    ensures ClosedUnder(b, ids)
  {
    forall id, i | id in b && id in ids && 0 <= i < |b[id].children| ensures b[id].children[i].node in ids {
      assert Keeps(a[id], b[id]);
    }
  }

  ghost predicate ChildrenWithin(cs: seq<ChildLink>, ids: set<NodeId>) {
    forall i | 0 <= i < |cs| :: cs[i].node in ids
  }

  /**
   * Footprint: starting at a node of a set closed under children, a run streams statuses only for
   * nodes of that set (the node itself and what it can reach through child links).
   */
  lemma {:induction false} RunWithin(e: Engine, id: NodeId, inputs: Inputs, rank: NodeId -> nat, ids: set<NodeId>)
    requires WellFormed(e.nodes, rank) && id in e.nodes && id in ids && ClosedUnder(e.nodes, ids)
    ensures StatusesWithin(Run(e, id, inputs, rank).engine.trace[|e.trace|..], ids)
    decreases rank(id), 3, 0
  {
    var n := e.nodes[id];
    var x := Invoke(n, inputs);
    var logged := Engine(e.nodes, e.trace + LogEvents(x.logs));
    var r := Run(e, id, inputs, rank);
    assert ChildrenWithin(n.children, ids);
    LogEventsHaveNoStatus(x.logs);
    assert StatusesWithin(logged.trace[|e.trace|..], ids) by {
      assert logged.trace[|e.trace|..] == LogEvents(x.logs);
    }
    if n.kind == Plain {
      if x.outputs.Ok? {
        var e1 := Emit(logged, Status(true, id));
        SegmentsWithin(e.trace, logged.trace, e1.trace, ids);
        var s := CallChildren(e1, id, x.outputs.value, rank);
        CallChildrenWithin(e1, id, x.outputs.value, rank, ids);
        SegmentsWithin(e.trace, e1.trace, s.engine.trace, ids);
        SegmentsWithin(e.trace, s.engine.trace, r.engine.trace, ids);
      } else {
        SegmentsWithin(e.trace, logged.trace, r.engine.trace, ids);
      }
    } else {
      match LoopItems(id, x.outputs)
      case Err(_) =>
        SegmentsWithin(e.trace, logged.trace, r.engine.trace, ids);
      case Ok(items) =>
        var s := Iterate(logged, id, items, rank);
        IterateWithin(logged, id, items, rank, ids);
        SegmentsWithin(e.trace, logged.trace, s.engine.trace, ids);
        SegmentsWithin(e.trace, s.engine.trace, r.engine.trace, ids);
    }
  }

  lemma {:induction false} IterateWithin(e: Engine, id: NodeId, items: seq<IOValue>, rank: NodeId -> nat, ids: set<NodeId>)
    requires WellFormed(e.nodes, rank) && id in e.nodes && ChildrenWithin(e.nodes[id].children, ids) && ClosedUnder(e.nodes, ids)
    ensures StatusesWithin(Iterate(e, id, items, rank).engine.trace[|e.trace|..], ids)
    decreases rank(id), 2, |items|
  {
    if items != [] {
      var s := CallChildren(e, id, [items[0]], rank);
      CallChildrenWithin(e, id, [items[0]], rank, ids);
      if s.error.None? {
        EvolvesWellFormed(e.nodes, s.engine.nodes, rank);
        EvolvesClosed(e.nodes, s.engine.nodes, ids);
        assert Keeps(e.nodes[id], s.engine.nodes[id]);
        IterateWithin(s.engine, id, items[1..], rank, ids);
        SegmentsWithin(e.trace, s.engine.trace, Iterate(e, id, items, rank).engine.trace, ids);
      }
    }
  }

  lemma {:induction false} CallChildrenWithin(e: Engine, id: NodeId, outs: seq<IOValue>, rank: NodeId -> nat, ids: set<NodeId>)
    requires WellFormed(e.nodes, rank) && id in e.nodes && ChildrenWithin(e.nodes[id].children, ids) && ClosedUnder(e.nodes, ids)
    ensures StatusesWithin(CallChildren(e, id, outs, rank).engine.trace[|e.trace|..], ids)
    decreases rank(id), 1, 0
  {
    var n := e.nodes[id];
    var nodes := e.nodes[id := n.(results := outs)];
    assert Keeps(n, nodes[id]);
    assert Evolves(e.nodes, nodes);
    EvolvesWellFormed(e.nodes, nodes, rank);
    EvolvesClosed(e.nodes, nodes, ids);
    CallEachWithin(Engine(nodes, e.trace), id, outs, n.children, rank, ids);
  }

  lemma {:induction false} CallEachWithin(e: Engine, id: NodeId, outs: seq<IOValue>, kids: seq<ChildLink>, rank: NodeId -> nat, ids: set<NodeId>)
    requires WellFormed(e.nodes, rank) && ChildrenBelow(e.nodes, kids, rank(id), rank)
    requires ChildrenWithin(kids, ids) && ClosedUnder(e.nodes, ids)
    ensures StatusesWithin(CallEach(e, id, outs, kids, rank).engine.trace[|e.trace|..], ids)
    decreases rank(id), 0, |kids|
  {
    if kids != [] {
      var s1 := OnParentCalling(e, kids[0].node, id, outs, rank);
      OnParentCallingWithin(e, kids[0].node, id, outs, rank, ids);
      EvolvesWellFormed(e.nodes, s1.engine.nodes, rank);
      EvolvesClosed(e.nodes, s1.engine.nodes, ids);
      CallEachWithin(s1.engine, id, outs, kids[1..], rank, ids);
      SegmentsWithin(e.trace, s1.engine.trace, CallEach(e, id, outs, kids, rank).engine.trace, ids);
    }
  }

  lemma {:induction false} OnParentCallingWithin(e: Engine, id: NodeId, caller: NodeId, value: seq<IOValue>, rank: NodeId -> nat, ids: set<NodeId>)
    requires WellFormed(e.nodes, rank) && id in e.nodes && id in ids && ClosedUnder(e.nodes, ids)
    ensures StatusesWithin(OnParentCalling(e, id, caller, value, rank).engine.trace[|e.trace|..], ids)
    decreases rank(id), 4, 0
  {
    var n := e.nodes[id];
    var ps := Deliver(n.parents, caller, value);
    var nodes := e.nodes[id := n.(parents := ps)];
    assert Keeps(n, nodes[id]);
    assert Evolves(e.nodes, nodes);
    EvolvesWellFormed(e.nodes, nodes, rank);
    EvolvesClosed(e.nodes, nodes, ids);
    if AllDelivered(ps) {
      RunWithin(Engine(nodes, e.trace), id, Collect(ps), rank, ids);
    }
  }

  /** The nodes ranked below `id`: closed under children, and `id` is not among them. */
  lemma BelowIsClosed(a: Arena, id: NodeId, rank: NodeId -> nat) returns (ids: set<NodeId>)
    requires WellFormed(a, rank) && id in a
    ensures ClosedUnder(a, ids) && ChildrenWithin(a[id].children, ids) && id !in ids
  {
    ids := set y | y in a && rank(y) < rank(id);
    assert ChildrenBelow(a, a[id].children, rank(id), rank);
    forall y, i | y in a && y in ids && 0 <= i < |a[y].children| ensures a[y].children[i].node in ids {
      assert ChildrenBelow(a, a[y].children, rank(y), rank);
    }
  }

  /** The flags of the statuses one run of node `id` streams for `id` itself. */
  function RunFlags(kind: NodeKind, executorFailed: bool, succeeded: bool): seq<bool> {
    if kind == Plain then
      (if executorFailed then [false] else if succeeded then [true] else [true, false])
    else
      (if succeeded then [true] else [false])
  }

  lemma StatusesOfSegment(t: seq<Event>, evs: seq<Event>, id: NodeId)
    requires evs == [] || (|evs| == 1 && evs[0].Status?)
    ensures StatusesOf(t + evs, id) == StatusesOf(t, id) + (if evs != [] && evs[0].nodeId == id then [evs[0].success] else [])
  {
    StatusesOfConcat(t, evs, id);
    if evs != [] {
      assert evs[..0] == [];
    }
  }

  /**
   * The statuses `run` streams for its own node: a plain node streams `true` on executor success,
   * `false` on executor failure, and `true` then `false` when a child then fails; a loop node streams
   * exactly one status, `true` when the whole loop succeeded and `false` otherwise. Statuses of the
   * children's runs are for other nodes, so these are all.
   */
  lemma RunStatuses(e: Engine, id: NodeId, inputs: Inputs, rank: NodeId -> nat)
    requires WellFormed(e.nodes, rank) && id in e.nodes
    ensures var r := Run(e, id, inputs, rank);
      StatusesOf(r.engine.trace[|e.trace|..], id) ==
        RunFlags(e.nodes[id].kind, Invoke(e.nodes[id], inputs).outputs.Err?, r.error.None?)
  {
    var n := e.nodes[id];
    var x := Invoke(n, inputs);
    LogEventsHaveNoStatus(x.logs);
    NoStatusesOutside(LogEvents(x.logs), {}, id);
    if n.kind == Plain && x.outputs.Ok? {
      RunStatusesPlainOk(e, id, inputs, rank);
    } else if n.kind == Plain {
      var r := Run(e, id, inputs, rank);
      assert r.engine.trace[|e.trace|..] == LogEvents(x.logs) + [Status(false, id)];
      StatusesOfSegment(LogEvents(x.logs), [Status(false, id)], id);
    } else {
      RunStatusesLoop(e, id, inputs, rank);
    }
  }

  lemma RunStatusesPlainOk(e: Engine, id: NodeId, inputs: Inputs, rank: NodeId -> nat)
    requires WellFormed(e.nodes, rank) && id in e.nodes
    requires e.nodes[id].kind == Plain && Invoke(e.nodes[id], inputs).outputs.Ok?
    ensures var r := Run(e, id, inputs, rank);
      StatusesOf(r.engine.trace[|e.trace|..], id) == if r.error.None? then [true] else [true, false]
  {
    var x := Invoke(e.nodes[id], inputs);
    var logs := LogEvents(x.logs);
    LogEventsHaveNoStatus(x.logs);
    NoStatusesOutside(logs, {}, id);
    var e1 := Engine(e.nodes, e.trace + logs + [Status(true, id)]);
    var s := CallChildren(e1, id, x.outputs.value, rank);
    RunExecutorSucceeds(e, id, inputs, rank);
    var ids := BelowIsClosed(e.nodes, id, rank);
    CallChildrenWithin(e1, id, x.outputs.value, rank, ids);
    var tail := if s.error.Some? then [Status(false, id)] else [];
    StatusesAroundChildren(e.trace, logs, s.engine.trace, tail, id, ids);
  }

  /** The trace of a plain run that passed its executor: logs, `{success: true}`, the children's events, an optional `{success: false}`. */
  lemma StatusesAroundChildren(pre: seq<Event>, logs: seq<Event>, mid: seq<Event>, tail: seq<Event>, id: NodeId, ids: set<NodeId>)
    requires pre + logs + [Status(true, id)] <= mid
    requires StatusesOf(logs, id) == [] && id !in ids
    requires StatusesWithin(mid[|pre + logs + [Status(true, id)]|..], ids)
    requires tail == [] || tail == [Status(false, id)]
    ensures StatusesOf((mid + tail)[|pre|..], id) == if tail == [] then [true] else [true, false]
  {
    var head := pre + logs + [Status(true, id)];
    var kids := mid[|head|..];
    NoStatusesOutside(kids, ids, id);
    assert mid == head + kids;
    assert (mid + tail)[|pre|..] == logs + [Status(true, id)] + kids + tail;
    SuccessThenChildren(logs, kids, tail, id);
  }

  lemma SuccessThenChildren(logs: seq<Event>, kids: seq<Event>, tail: seq<Event>, id: NodeId)
    requires StatusesOf(logs, id) == [] && StatusesOf(kids, id) == []
    requires tail == [] || tail == [Status(false, id)]
    ensures StatusesOf(logs + [Status(true, id)] + kids + tail, id) == if tail == [] then [true] else [true, false]
  {
    StatusesOfSegment(logs, [Status(true, id)], id);
    StatusesOfConcat(logs + [Status(true, id)], kids, id);
    StatusesOfSegment(logs + [Status(true, id)] + kids, tail, id);
  }

  lemma RunStatusesLoop(e: Engine, id: NodeId, inputs: Inputs, rank: NodeId -> nat)
    requires WellFormed(e.nodes, rank) && id in e.nodes && e.nodes[id].kind == Loop
    ensures var r := Run(e, id, inputs, rank);
      StatusesOf(r.engine.trace[|e.trace|..], id) == if r.error.None? then [true] else [false]
  {
    var x := Invoke(e.nodes[id], inputs);
    var logs := LogEvents(x.logs);
    LogEventsHaveNoStatus(x.logs);
    NoStatusesOutside(logs, {}, id);
    match LoopItems(id, x.outputs)
    case Err(_) =>
      LoopWithoutArray(e, id, inputs, rank);
      assert (e.trace + logs + [Status(false, id)])[|e.trace|..] == logs + [Status(false, id)];
      StatusesOfSegment(logs, [Status(false, id)], id);
    case Ok(items) =>
      var logged := Engine(e.nodes, e.trace + logs);
      var s := Iterate(logged, id, items, rank);
      LoopOverArray(e, id, inputs, rank);
      var ids := BelowIsClosed(e.nodes, id, rank);
      IterateWithin(logged, id, items, rank, ids);
      StatusesAfterBody(e.trace, logs, s.engine.trace, s.error.None?, id, ids);
  }

  /** The trace of a loop run over an array: logs, the iterations' events, then one status. */
  lemma StatusesAfterBody(pre: seq<Event>, logs: seq<Event>, mid: seq<Event>, ok: bool, id: NodeId, ids: set<NodeId>)
    requires pre + logs <= mid
    requires StatusesOf(logs, id) == [] && id !in ids
    requires StatusesWithin(mid[|pre + logs|..], ids)
    ensures StatusesOf((mid + [Status(ok, id)])[|pre|..], id) == [ok]
  {
    var body := mid[|pre + logs|..];
    NoStatusesOutside(body, ids, id);
    assert mid == pre + logs + body;
    assert (mid + [Status(ok, id)])[|pre|..] == logs + body + [Status(ok, id)];
    StatusesOfConcat(logs, body, id);
    StatusesOfSegment(logs + body, [Status(ok, id)], id);
  }

  /** A loop over an array: its logs, the iterations, then `{success: true}`, or `{success: false}` and the first failure. */
  lemma LoopOverArray(e: Engine, id: NodeId, inputs: Inputs, rank: NodeId -> nat)
    requires WellFormed(e.nodes, rank) && id in e.nodes && e.nodes[id].kind == Loop
    requires LoopItems(id, Invoke(e.nodes[id], inputs).outputs).Ok?
    ensures var x := Invoke(e.nodes[id], inputs);
      var s := Iterate(Engine(e.nodes, e.trace + LogEvents(x.logs)), id, LoopItems(id, x.outputs).value, rank);
      Run(e, id, inputs, rank) == Step(Emit(s.engine, Status(s.error.None?, id)), s.error)
  {
  }

  // ---------------------------------------------------------------------------------------------
  // What a run leaves unchanged

  /** Nodes other than `id` that are not ranked below it are left as they were. */
  ghost predicate OnlyBelow(a: Arena, b: Arena, id: NodeId, rank: NodeId -> nat) {
    forall x | x in a && x != id && rank(x) >= rank(id) :: x in b && b[x] == a[x]
  }

  /** Nodes not ranked below `bound` are left as they were. */
  ghost predicate UnchangedFrom(a: Arena, b: Arena, bound: nat, rank: NodeId -> nat) {
    forall x | x in a && rank(x) >= bound :: x in b && b[x] == a[x]
  }

  lemma {:induction false} RunFrame(e: Engine, id: NodeId, inputs: Inputs, rank: NodeId -> nat)
    requires WellFormed(e.nodes, rank) && id in e.nodes
    ensures OnlyBelow(e.nodes, Run(e, id, inputs, rank).engine.nodes, id, rank)
    decreases rank(id), 3, 0
  {
    var n := e.nodes[id];
    var x := Invoke(n, inputs);
    var logged := Engine(e.nodes, e.trace + LogEvents(x.logs));
    if n.kind == Plain {
      if x.outputs.Ok? {
        CallChildrenFrame(Emit(logged, Status(true, id)), id, x.outputs.value, rank);
      }
    } else {
      match LoopItems(id, x.outputs)
      case Err(_) =>
      case Ok(items) =>
        IterateFrame(logged, id, items, rank);
    }
  }

  lemma {:induction false} IterateFrame(e: Engine, id: NodeId, items: seq<IOValue>, rank: NodeId -> nat)
    requires WellFormed(e.nodes, rank) && id in e.nodes
    ensures OnlyBelow(e.nodes, Iterate(e, id, items, rank).engine.nodes, id, rank)
    decreases rank(id), 2, |items|
  {
    if items != [] {
      var s := CallChildren(e, id, [items[0]], rank);
      CallChildrenFrame(e, id, [items[0]], rank);
      if s.error.None? {
        EvolvesWellFormed(e.nodes, s.engine.nodes, rank);
        IterateFrame(s.engine, id, items[1..], rank);
      }
    }
  }

  lemma {:induction false} CallChildrenFrame(e: Engine, id: NodeId, outs: seq<IOValue>, rank: NodeId -> nat)
    requires WellFormed(e.nodes, rank) && id in e.nodes
    ensures var b := CallChildren(e, id, outs, rank).engine.nodes;
      OnlyBelow(e.nodes, b, id, rank) && b[id] == e.nodes[id].(results := outs)
    decreases rank(id), 1, 0
  {
    var n := e.nodes[id];
    var nodes := e.nodes[id := n.(results := outs)];
    assert Keeps(n, nodes[id]);
    assert Evolves(e.nodes, nodes);
    EvolvesWellFormed(e.nodes, nodes, rank);
    CallEachFrame(Engine(nodes, e.trace), id, outs, n.children, rank);
  }

  lemma {:induction false} CallEachFrame(e: Engine, id: NodeId, outs: seq<IOValue>, kids: seq<ChildLink>, rank: NodeId -> nat)
    requires WellFormed(e.nodes, rank) && ChildrenBelow(e.nodes, kids, rank(id), rank)
    ensures UnchangedFrom(e.nodes, CallEach(e, id, outs, kids, rank).engine.nodes, rank(id), rank)
    decreases rank(id), 0, |kids|
  {
    if kids != [] {
      CallEachStep(e, id, outs, kids, rank);
      var s1 := OnParentCalling(e, kids[0].node, id, outs, rank);
      OnParentCallingFrame(e, kids[0].node, id, outs, rank);
      CallEachFrame(s1.engine, id, outs, kids[1..], rank);
    }
  }

  lemma {:induction false} OnParentCallingFrame(e: Engine, id: NodeId, caller: NodeId, value: seq<IOValue>, rank: NodeId -> nat)
    requires WellFormed(e.nodes, rank) && id in e.nodes
    ensures OnlyBelow(e.nodes, OnParentCalling(e, id, caller, value, rank).engine.nodes, id, rank)
    decreases rank(id), 4, 0
  {
    var n := e.nodes[id];
    var ps := Deliver(n.parents, caller, value);
    var nodes := e.nodes[id := n.(parents := ps)];
    assert Keeps(n, nodes[id]);
    assert Evolves(e.nodes, nodes);
    EvolvesWellFormed(e.nodes, nodes, rank);
    if AllDelivered(ps) {
      RunFrame(Engine(nodes, e.trace), id, Collect(ps), rank);
    }
  }

  // ---------------------------------------------------------------------------------------------
  // Individual behaviours of `run`, `callChildren` and `onParentCalling`

  /**
   * Executor failure of a plain node: its logs, then `{success: false}`, and the error is rethrown;
   * no node changes, so no child is called.
   */
  lemma RunExecutorFails(e: Engine, id: NodeId, inputs: Inputs, rank: NodeId -> nat)
    requires WellFormed(e.nodes, rank) && id in e.nodes && e.nodes[id].kind == Plain
    requires Invoke(e.nodes[id], inputs).outputs.Err?
    ensures var x := Invoke(e.nodes[id], inputs);
      Run(e, id, inputs, rank) ==
        Step(Engine(e.nodes, e.trace + LogEvents(x.logs) + [Status(false, id)]), Some(ExecutorFailed(id, x.outputs.error)))
  {
  }

  /**
   * Executor success of a plain node: its logs and `{success: true}` come first, then everything
   * `callChildren(outputs)` streams; a child's failure adds `{success: false}` and is rethrown.
   */
  lemma RunExecutorSucceeds(e: Engine, id: NodeId, inputs: Inputs, rank: NodeId -> nat)
    requires WellFormed(e.nodes, rank) && id in e.nodes && e.nodes[id].kind == Plain
    requires Invoke(e.nodes[id], inputs).outputs.Ok?
    ensures var x := Invoke(e.nodes[id], inputs);
      var e1 := Engine(e.nodes, e.trace + LogEvents(x.logs) + [Status(true, id)]);
      var s := CallChildren(e1, id, x.outputs.value, rank);
      var r := Run(e, id, inputs, rank);
      && r.error == s.error
      && r.engine.nodes == s.engine.nodes
      && r.engine.trace == s.engine.trace + (if s.error.Some? then [Status(false, id)] else [])
      && r.engine.nodes[id].results == x.outputs.value
  {
    var x := Invoke(e.nodes[id], inputs);
    var e1 := Engine(e.nodes, e.trace + LogEvents(x.logs) + [Status(true, id)]);
    CallChildrenFrame(e1, id, x.outputs.value, rank);
  }

  /** A loop whose first output has no usable array: logs, `{success: false}`, the error; no child is called. */
  lemma LoopWithoutArray(e: Engine, id: NodeId, inputs: Inputs, rank: NodeId -> nat)
    requires WellFormed(e.nodes, rank) && id in e.nodes && e.nodes[id].kind == Loop
    requires LoopItems(id, Invoke(e.nodes[id], inputs).outputs).Err?
    ensures var x := Invoke(e.nodes[id], inputs);
      Run(e, id, inputs, rank) ==
        Step(Engine(e.nodes, e.trace + LogEvents(x.logs) + [Status(false, id)]), Some(LoopItems(id, x.outputs).error))
  {
  }

  /** A loop over an empty array calls no child and streams one `{success: true}`. */
  lemma LoopOverEmptyArray(e: Engine, id: NodeId, inputs: Inputs, rank: NodeId -> nat)
    requires WellFormed(e.nodes, rank) && id in e.nodes && e.nodes[id].kind == Loop
    requires LoopItems(id, Invoke(e.nodes[id], inputs).outputs) == Ok([])
    ensures var x := Invoke(e.nodes[id], inputs);
      Run(e, id, inputs, rank) == Step(Engine(e.nodes, e.trace + LogEvents(x.logs) + [Status(true, id)]), None)
  {
  }

  /**
   * The iterations run strictly in index order: iterating over `a + b` is iterating over `a`,
   * then, unless that failed, over `b` from the state `a` left.
   */
  lemma {:induction false} IterateConcat(e: Engine, id: NodeId, a: seq<IOValue>, b: seq<IOValue>, rank: NodeId -> nat)
    requires WellFormed(e.nodes, rank) && id in e.nodes
    ensures var s := Iterate(e, id, a, rank);
      && WellFormed(s.engine.nodes, rank) && id in s.engine.nodes
      && Iterate(e, id, a + b, rank) == if s.error.Some? then s else Iterate(s.engine, id, b, rank)
    decreases |a|
  {
    var s := Iterate(e, id, a, rank);
    EvolvesWellFormed(e.nodes, s.engine.nodes, rank);
    if a == [] {
      assert a + b == b;
    } else {
      IterateStep(e, id, a + b, rank);
      IterateStep(e, id, a, rank);
      assert (a + b)[0] == a[0];
      assert (a + b)[1..] == a[1..] + b;
      var s0 := CallChildren(e, id, [a[0]], rank);
      if s0.error.None? {
        IterateConcat(s0.engine, id, a[1..], b, rank);
      }
    }
  }

  /** `callChildren` stores the outputs in `results` and changes no node outside what its children reach. */
  lemma CallChildrenStoresResults(e: Engine, id: NodeId, outs: seq<IOValue>, rank: NodeId -> nat)
    requires WellFormed(e.nodes, rank) && id in e.nodes
    ensures var b := CallChildren(e, id, outs, rank).engine.nodes;
      && b[id].results == outs && b[id].parents == e.nodes[id].parents
      && forall x | x in e.nodes && rank(x) >= rank(id) && x != id :: b[x] == e.nodes[x]
  {
    CallChildrenFrame(e, id, outs, rank);
  }

  /** While some slot is still `undefined` after the delivery, `onParentCalling` only stores the value. */
  lemma OnParentCallingWaits(e: Engine, id: NodeId, caller: NodeId, value: seq<IOValue>, rank: NodeId -> nat)
    requires WellFormed(e.nodes, rank) && id in e.nodes
    requires !AllDelivered(Deliver(e.nodes[id].parents, caller, value))
    ensures OnParentCalling(e, id, caller, value, rank) ==
      Step(Engine(e.nodes[id := e.nodes[id].(parents := Deliver(e.nodes[id].parents, caller, value))], e.trace), None)
  {
  }

  /** A caller that is not a registered parent changes no slot. */
  lemma OnParentCallingUnregistered(e: Engine, id: NodeId, caller: NodeId, value: seq<IOValue>, rank: NodeId -> nat)
    requires WellFormed(e.nodes, rank) && id in e.nodes && !HasParent(e.nodes[id], caller)
    ensures !AllDelivered(e.nodes[id].parents) ==> OnParentCalling(e, id, caller, value, rank) == Step(e, None)
  {
    DeliverUnregistered(e.nodes[id].parents, caller, value);
    assert e.nodes[id := e.nodes[id].(parents := e.nodes[id].parents)] == e.nodes;
  }

  /**
   * Once every slot holds a value, each further `onParentCalling` runs the node again: the run streams
   * at least one status for the node.
   */
  lemma OnParentCallingRerunsOnceFilled(e: Engine, id: NodeId, caller: NodeId, value: seq<IOValue>, rank: NodeId -> nat)
    requires WellFormed(e.nodes, rank) && id in e.nodes && AllDelivered(e.nodes[id].parents)
    ensures StatusesOf(OnParentCalling(e, id, caller, value, rank).engine.trace[|e.trace|..], id) != []
  {
    var n := e.nodes[id];
    var ps := Deliver(n.parents, caller, value);
    DeliverKeepsAllDelivered(n.parents, caller, value);
    var nodes := e.nodes[id := n.(parents := ps)];
    assert Keeps(n, nodes[id]);
    assert Evolves(e.nodes, nodes);
    EvolvesWellFormed(e.nodes, nodes, rank);
    RunStatuses(Engine(nodes, e.trace), id, Collect(ps), rank);
  }
}
