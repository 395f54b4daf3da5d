/**
 * The blueprint service of the desktop application: the built-in node definitions, the plugin
 * packages it loads, the type record it builds from all of them, and its older copy of the
 * executable node, which is always a plain node (it has no loop specialisation). Installing and
 * requiring packages is not modelled: `load` gives the node definitions of a loaded plugin.
 */
module Blueprints {
  import opened Types
  import opened JsText
  import opened NodeRegistry
  import opened NodeProtocol
  import CopyResourcesNode
  import SleepNode
  import Runtime

  const CorePackage: string := "@script_graph/core"
  const PluginScope: string := "@script_graph/"

  /** A dependency that is loaded as a plugin: in the scope, and not the core package that is always built in. */
  predicate IsPluginPackage(dep: string) {
    dep != CorePackage && StartsWith(dep, PluginScope)
  }

  /** The plugin-name filter over the dependency names, in their order. */
  function PluginPackages(deps: seq<string>): (r: seq<string>)
    ensures forall d :: d in r <==> d in deps && IsPluginPackage(d)
    ensures CorePackage !in r && |r| <= |deps|
  {
    if deps == [] then []
    else (if IsPluginPackage(deps[0]) then [deps[0]] else []) + PluginPackages(deps[1..])
  }

  /** The definitions the plugins add, plugin after plugin: `plugins.forEach(p => nodes.push(...p.nodes))`. */
  function PluginNodes(deps: seq<string>, load: string -> seq<NodeDefinition>): (r: seq<NodeDefinition>)
    ensures forall d | d in r :: exists p | p in deps :: d in load(p)
    ensures forall p, d | p in deps && d in load(p) :: d in r
  {
    if deps == [] then []
    else
      var rest := PluginNodes(deps[1..], load);
      assert forall d | d in rest :: exists p | p in deps :: d in load(p) by {
        forall d | d in rest ensures exists p | p in deps :: d in load(p) {
          var p :| p in deps[1..] && d in load(p);
          assert p in deps;
        }
      }
      assert forall p | p in deps && p != deps[0] :: p in deps[1..];
      load(deps[0]) + rest
  }

  class BlueprintService {
    /** All node definitions: the built-ins, then every plugin's. */
    var nodes: seq<NodeDefinition>
    /** The type record built by `loadPlugins`. */
    var nodeMap: Registry

    /** Every registered definition is stored under its own type and is one of `nodes`. */
    ghost predicate Valid()
      reads this
    {
      forall t | t in nodeMap :: nodeMap[t].nodeType == t && nodeMap[t] in nodes
    }

    /** The built-ins `Trigger`, `CopyResources` and `Sleep`, in that order, and an empty record. */
    constructor (trigger: NodeDefinition, spawn: CopyResourcesNode.Spawn)
      ensures nodes == [trigger, CopyResourcesNode.Definition(spawn), SleepNode.Definition()]
      ensures nodeMap == map[] && Valid()
    {
      nodes := [trigger, CopyResourcesNode.Definition(spawn), SleepNode.Definition()];
      nodeMap := map[];
    }

    /** The pure part of `loadPlugins`: append the nodes of every plugin package, then rebuild the type record. */
    method LoadPlugins(deps: seq<string>, load: string -> seq<NodeDefinition>)
      modifies this
      ensures nodes == old(nodes) + PluginNodes(PluginPackages(deps), load)
      ensures nodeMap == LastByType(nodes) && Valid()
    {
      var plugins := PluginPackages(deps);
      var i := 0;
      while i < |plugins|
        invariant 0 <= i <= |plugins|
        invariant nodes + PluginNodes(plugins[i..], load) == old(nodes) + PluginNodes(plugins, load)
      {
        assert plugins[i..][0] == plugins[i] && plugins[i..][1..] == plugins[i + 1..];
        nodes := nodes + load(plugins[i]);
        i := i + 1;
      }
      assert plugins[i..] == [];
      nodeMap := LastByType(nodes);
    }

    /** `getSGNode`: the definition registered for the type, or `null`. */
    function GetSGNode(nodeType: string): (r: Option<NodeDefinition>)
      requires Valid()
      reads this
      ensures r.Some? <==> nodeType in nodeMap
      ensures r.Some? ==> r.value.nodeType == nodeType && r.value in nodes
    {
      if nodeType in nodeMap then Some(nodeMap[nodeType]) else None
    }

    /** `getExecutableNode`: a plain executable node for a registered type, `null` otherwise; it never throws. */
    function GetExecutableNode(s: SerializedNode): (r: Option<ExecNode>)
      requires Valid()
      reads this
      ensures r.Some? <==> s.nodeType in nodeMap
      ensures r.Some? ==>
        && r.value.kind == Plain && r.value.serialized == s && r.value.executor == nodeMap[s.nodeType].execute
        && r.value.children == [] && r.value.parents == [] && r.value.results == []
    {
      match GetSGNode(s.nodeType)
      case None => None
      case Some(def) => Some(NewNode(Plain, def.execute, s))
    }
  }

  /** After loading, a type resolves exactly when some definition has it, and to the last definition of that type. */
  lemma LoadedLookup(service: BlueprintService, t: string, i: nat)
    requires service.nodeMap == LastByType(service.nodes) && service.Valid()
    ensures service.GetSGNode(t).Some? <==> Defines(service.nodes, t)
    ensures i < |service.nodes| && service.nodes[i].nodeType == t
            && (forall j | i < j < |service.nodes| :: service.nodes[j].nodeType != t) ==>
      service.GetSGNode(t) == Some(service.nodes[i])
  {
    LastByTypeKeys(service.nodes, t);
    if i < |service.nodes| && service.nodes[i].nodeType == t && (forall j | i < j < |service.nodes| :: service.nodes[j].nodeType != t) {
      LastByTypeLastWins(service.nodes, i);
    }
  }

  /** A plugin definition of a built-in's type replaces the built-in; a type no plugin defines keeps its built-in. */
  lemma PluginsOverrideBuiltins(builtins: seq<NodeDefinition>, deps: seq<string>, load: string -> seq<NodeDefinition>, t: string)
    ensures var plugins := PluginNodes(PluginPackages(deps), load);
      var reg := LastByType(builtins + plugins);
      && (t in LastByType(plugins) ==> t in reg && reg[t] in plugins)
      && (t !in LastByType(plugins) && t in LastByType(builtins) ==> t in reg && reg[t] in builtins)
  {
    var plugins := PluginNodes(PluginPackages(deps), load);
    LastByTypeConcat(builtins, plugins, t);
  }

  /**
   * The two executable-node factories differ on `ForEach`: the runtime builds a loop node, the
   * blueprint service a plain one; both refuse the same types (the runtime by throwing).
   */
  lemma ForEachIsPlainHere(service: BlueprintService, s: SerializedNode)
    requires service.Valid() && s.nodeType in service.nodeMap && service.nodeMap[s.nodeType].nodeType == Runtime.ForEach
    ensures Runtime.GetExecutableNode(service.nodeMap, s).value.kind == Loop
    ensures service.GetExecutableNode(s).value.kind == Plain
  {
  }
}
