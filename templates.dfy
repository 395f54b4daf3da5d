/**
 * Template flattening in the `executeFlow` handler: a `Template` node names another flow by the
 * `projectId` and `flowId` string fields of its configuration; the handler gathers every flow
 * reachable through such nodes and hands the runtime the flow's nodes and edges followed by those
 * of all gathered flows. The project store is a finite lookup from (project id, flow id) to flow.
 */
module Templates {
  import opened Types
  import opened NodeConfigs

  datatype ProjectFlow = ProjectFlow(id: string, name: string, nodes: seq<SerializedNode>, edges: seq<Edge>)

  /** (project id, flow id). */
  type FlowKey = (string, string)

  /** `projectService.getFlow`: the flows it finds. */
  type Store = map<FlowKey, ProjectFlow>

  const TemplateType: string := "Template"

  /** `find(...)?.value` of the first string field of that name, when it is a non-empty string. */
  function NonEmptyField(fields: seq<ConfigField>, name: string): (r: Option<string>)
    ensures r.Some? <==> FieldValue(fields, name, StringKind).Some? && FieldValue(fields, name, StringKind).value != ""
    ensures r.Some? ==> r == FieldValue(fields, name, StringKind)
  {
    match FieldValue(fields, name, StringKind)
    case Some(v) => if v != "" then Some(v) else None
    case None => None
  }

  /** The flow a node refers to: a `Template` node whose `flowId` and `projectId` are both set and non-empty. */
  function TemplateRef(n: SerializedNode): (r: Option<FlowKey>)
    ensures r.Some? ==> n.nodeType == TemplateType && r.value.0 != "" && r.value.1 != ""
    ensures r.Some? <==>
      n.nodeType == TemplateType && NonEmptyField(n.config.fields, "flowId").Some? && NonEmptyField(n.config.fields, "projectId").Some?
  {
    if n.nodeType != TemplateType then None
    else
      match (NonEmptyField(n.config.fields, "projectId"), NonEmptyField(n.config.fields, "flowId"))
      case (Some(p), Some(f)) => Some((p, f))
      case _ => None
  }

  /** Some node of the list is a template referring to `k`. */
  ghost predicate Refers(nodes: seq<SerializedNode>, k: FlowKey) {
    exists i | 0 <= i < |nodes| :: TemplateRef(nodes[i]) == Some(k)
  }

  /** The flow one node contributes directly: its template, when the lookup finds it. */
  function NodeTemplate(store: Store, n: SerializedNode): (r: seq<FlowKey>)
    ensures forall i | 0 <= i < |r| :: r[i] in store && Some(r[i]) == TemplateRef(n)
  {
    var ref := TemplateRef(n);
    if ref.Some? && ref.value in store then [ref.value] else []
  }

  /** The template lookups that succeed, in node order: the `filter`, `map` and `filter(f => f)` of the handler. */
  function DirectTemplates(store: Store, nodes: seq<SerializedNode>): (r: seq<FlowKey>)
    ensures forall i | 0 <= i < |r| :: r[i] in store && Refers(nodes, r[i])
  {
    if nodes == [] then []
    else
      var rest := DirectTemplates(store, nodes[1..]);
      assert forall i | 0 <= i < |rest| :: Refers(nodes, rest[i]) by {
        forall i | 0 <= i < |rest| ensures Refers(nodes, rest[i]) {
          var j :| 0 <= j < |nodes[1..]| && TemplateRef(nodes[1..][j]) == Some(rest[i]);
          assert nodes[j + 1] == nodes[1..][j];
        }
      }
      NodeTemplate(store, nodes[0]) + rest
  }

  /** Every template of the list whose flow is found is among the direct templates. */
  lemma {:induction false} DirectTemplatesComplete(store: Store, nodes: seq<SerializedNode>, i: nat)
    requires i < |nodes| && TemplateRef(nodes[i]).Some? && TemplateRef(nodes[i]).value in store
    ensures TemplateRef(nodes[i]).value in DirectTemplates(store, nodes)
    decreases i
  {
    if i > 0 {
      assert nodes[1..][i - 1] == nodes[i];
      DirectTemplatesComplete(store, nodes[1..], i - 1);
    }
  }

  /**
   * Template references only lead to flows of lower rank: the template graph has no cycle. This
   * ranges over every stored flow, including flows the executed one never reaches.
   */
  ghost predicate Acyclic(store: Store, rank: FlowKey -> nat) {
    forall k, i | k in store && 0 <= i < |store[k].nodes| ::
      TemplateRef(store[k].nodes[i]).Some? && TemplateRef(store[k].nodes[i]).value in store ==>
        rank(TemplateRef(store[k].nodes[i]).value) < rank(k)
  }

  /**
   * `recursivelyFetchTemplateNodes(store[k])`: the direct templates, followed by the expansion of each
   * of them in the same order, without deduplication.
   */
  function Fetch(store: Store, k: FlowKey, ghost rank: FlowKey -> nat): (r: seq<FlowKey>)
    requires k in store && Acyclic(store, rank)
    ensures forall i | 0 <= i < |r| :: r[i] in store && rank(r[i]) < rank(k)
    decreases rank(k), 1, 0
  {
    var direct := DirectTemplates(store, store[k].nodes);
    assert forall i | 0 <= i < |direct| :: rank(direct[i]) < rank(k) by {
      forall i | 0 <= i < |direct| ensures rank(direct[i]) < rank(k) {
        var j :| 0 <= j < |store[k].nodes| && TemplateRef(store[k].nodes[j]) == Some(direct[i]);
      }
    }
    direct + FetchEach(store, direct, rank(k), rank)
  }

  /** `templateFlows.flatMap(recursivelyFetchTemplateNodes)`. */
  function FetchEach(store: Store, ks: seq<FlowKey>, ghost bound: nat, ghost rank: FlowKey -> nat): (r: seq<FlowKey>)
    requires Acyclic(store, rank) && forall i | 0 <= i < |ks| :: ks[i] in store && rank(ks[i]) < bound
    ensures forall i | 0 <= i < |r| :: r[i] in store && rank(r[i]) < bound
    decreases bound, 0, |ks|
  {
    if ks == [] then []
    else
      var first := Fetch(store, ks[0], rank);
      var rest := FetchEach(store, ks[1..], bound, rank);
      assert forall i | |first| <= i < |first + rest| :: (first + rest)[i] == rest[i - |first|];
      first + rest
  }

  /** The nodes and edges one flow contributes after another's: `flatMap(f => f.nodes)` and `flatMap(f => f.edges)`. */
  function AllNodes(store: Store, ks: seq<FlowKey>): (r: seq<SerializedNode>)
    requires forall i | 0 <= i < |ks| :: ks[i] in store
    ensures forall n | n in r :: exists i | 0 <= i < |ks| :: n in store[ks[i]].nodes
    ensures forall i, n | 0 <= i < |ks| && n in store[ks[i]].nodes :: n in r
  {
    if ks == [] then []
    else
      var rest := AllNodes(store, ks[1..]);
      assert forall i | 1 <= i < |ks| :: ks[i] == ks[1..][i - 1];
      assert forall n | n in rest :: exists i | 1 <= i < |ks| :: n in store[ks[i]].nodes by {
        forall n | n in rest ensures exists i | 1 <= i < |ks| :: n in store[ks[i]].nodes {
          var j :| 0 <= j < |ks[1..]| && n in store[ks[1..][j]].nodes;
          assert ks[1..][j] == ks[j + 1];
        }
      }
      store[ks[0]].nodes + rest
  }

  function AllEdges(store: Store, ks: seq<FlowKey>): (r: seq<Edge>)
    requires forall i | 0 <= i < |ks| :: ks[i] in store
    ensures forall e | e in r :: exists i | 0 <= i < |ks| :: e in store[ks[i]].edges
    ensures forall i, e | 0 <= i < |ks| && e in store[ks[i]].edges :: e in r
  {
    if ks == [] then []
    else
      var rest := AllEdges(store, ks[1..]);
      assert forall i | 1 <= i < |ks| :: ks[i] == ks[1..][i - 1];
      assert forall e | e in rest :: exists i | 1 <= i < |ks| :: e in store[ks[i]].edges by {
        forall e | e in rest ensures exists i | 1 <= i < |ks| :: e in store[ks[i]].edges {
          var j :| 0 <= j < |ks[1..]| && e in store[ks[1..][j]].edges;
          assert ks[1..][j] == ks[j + 1];
        }
      }
      store[ks[0]].edges + rest
  }

  /** What the handler passes to `ExecuteFlow` for (project, flow), or nothing when the flow is not found. */
  function ExecutionInput(store: Store, projectId: string, flowId: string, ghost rank: FlowKey -> nat)
    : (r: Option<(seq<SerializedNode>, seq<Edge>)>)
    requires Acyclic(store, rank)
    ensures r.Some? <==> (projectId, flowId) in store
    ensures r.Some? ==>
      var flow := store[(projectId, flowId)];
      var templates := Fetch(store, (projectId, flowId), rank);
      r.value == (flow.nodes + AllNodes(store, templates), flow.edges + AllEdges(store, templates))
  {
    var k := (projectId, flowId);
    if k !in store then None
    else
      var templates := Fetch(store, k, rank);
      Some((store[k].nodes + AllNodes(store, templates), store[k].edges + AllEdges(store, templates)))
  }

  /** The direct templates of concatenated node lists are concatenated. */
  lemma {:induction false} DirectTemplatesConcat(store: Store, a: seq<SerializedNode>, b: seq<SerializedNode>)
    ensures DirectTemplates(store, a + b) == DirectTemplates(store, a) + DirectTemplates(store, b)
    decreases |a|
  {
    if a == [] {
      assert a + b == b;
    } else {
      assert (a + b)[0] == a[0] && (a + b)[1..] == a[1..] + b;
      DirectTemplatesConcat(store, a[1..], b);
      var h := NodeTemplate(store, a[0]);
      assert DirectTemplates(store, a + b) == h + DirectTemplates(store, a[1..] + b);
      assert h + (DirectTemplates(store, a[1..]) + DirectTemplates(store, b))
        == (h + DirectTemplates(store, a[1..])) + DirectTemplates(store, b);
    }
  }

  /**
   * No deduplication: a flow that two `Template` nodes of the processed flow refer to is gathered
   * (at least) twice.
   */
  lemma TemplateReferencedTwiceIsFetchedTwice(store: Store, k: FlowKey, rank: FlowKey -> nat, i: nat, j: nat, t: FlowKey)
    requires k in store && Acyclic(store, rank) && t in store
    requires i < j < |store[k].nodes|
    requires TemplateRef(store[k].nodes[i]) == Some(t) && TemplateRef(store[k].nodes[j]) == Some(t)
    ensures multiset(Fetch(store, k, rank))[t] >= 2
  {
    var ns := store[k].nodes;
    assert ns == ns[..i] + ([ns[i]] + (ns[i + 1..j] + ([ns[j]] + ns[j + 1..])));
    DirectTemplatesConcat(store, ns[..i], [ns[i]] + (ns[i + 1..j] + ([ns[j]] + ns[j + 1..])));
    DirectTemplatesConcat(store, [ns[i]], ns[i + 1..j] + ([ns[j]] + ns[j + 1..]));
    DirectTemplatesConcat(store, ns[i + 1..j], [ns[j]] + ns[j + 1..]);
    DirectTemplatesConcat(store, [ns[j]], ns[j + 1..]);
    var direct := DirectTemplates(store, ns);
    var x, y, z := DirectTemplates(store, ns[..i]), DirectTemplates(store, ns[i + 1..j]), DirectTemplates(store, ns[j + 1..]);
    assert DirectTemplates(store, [ns[i]]) == [t] && DirectTemplates(store, [ns[j]]) == [t];
    assert direct == x + ([t] + (y + ([t] + z)));
    assert multiset(direct)[t] >= 2;
    var r := Fetch(store, k, rank);
    assert multiset(r) == multiset(direct) + multiset(FetchEach(store, direct, rank(k), rank));
  }

  /** Every node of `ns` is one of `own` or a node of one of the flows `ks`. */
  ghost predicate NodesFrom(store: Store, own: seq<SerializedNode>, ks: seq<FlowKey>, ns: seq<SerializedNode>)
    requires forall i | 0 <= i < |ks| :: ks[i] in store
  {
    forall n | n in ns :: n in own || exists i | 0 <= i < |ks| :: n in store[ks[i]].nodes
  }

  /** Every node handed to the runtime is a node of the flow itself or of one of the gathered template flows. */
  lemma ExecutionInputComesFromFlows(store: Store, projectId: string, flowId: string, rank: FlowKey -> nat)
    requires Acyclic(store, rank) && (projectId, flowId) in store
    ensures NodesFrom(store, store[(projectId, flowId)].nodes, Fetch(store, (projectId, flowId), rank),
                      ExecutionInput(store, projectId, flowId, rank).value.0)
  {
    var templates := Fetch(store, (projectId, flowId), rank);
    var input := ExecutionInput(store, projectId, flowId, rank).value;
    forall n | n in input.0
      ensures n in store[(projectId, flowId)].nodes || exists i | 0 <= i < |templates| :: n in store[templates[i]].nodes
    {
      if n !in store[(projectId, flowId)].nodes {
        assert n in AllNodes(store, templates);
      }
    }
  }

  /** Every node and every edge of the flow and of each gathered flow is handed to the runtime. */
  lemma ExecutionInputHoldsFlows(store: Store, projectId: string, flowId: string, rank: FlowKey -> nat)
    requires Acyclic(store, rank) && (projectId, flowId) in store
    ensures var input := ExecutionInput(store, projectId, flowId, rank).value;
      var templates := Fetch(store, (projectId, flowId), rank);
      && (forall n | n in store[(projectId, flowId)].nodes :: n in input.0)
      && (forall e | e in store[(projectId, flowId)].edges :: e in input.1)
      && (forall i, n | 0 <= i < |templates| && n in store[templates[i]].nodes :: n in input.0)
      && (forall i, e | 0 <= i < |templates| && e in store[templates[i]].edges :: e in input.1)
  {
  }
}
