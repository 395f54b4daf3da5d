/**
 * The node-type registry: a record from node type to node definition filled from a list of
 * definitions, later ones overwriting earlier ones of the same type. The flow runtime fills it in
 * `setSGNodes`; the blueprint service builds the same record with a `reduce`.
 */
module NodeRegistry {
  import opened Types

  type Registry = map<string, NodeDefinition>

  /** Some definition of the list has type `t`. */
  predicate Defines(defs: seq<NodeDefinition>, t: string) {
    exists i | 0 <= i < |defs| :: defs[i].nodeType == t
  }

  /** The record after assigning `record[def.type] = def` for every definition, in list order. */
  function LastByType(defs: seq<NodeDefinition>): (r: Registry)
    ensures forall t | t in r :: r[t].nodeType == t && r[t] in defs
  {
    if defs == [] then map[]
    else LastByType(defs[..|defs| - 1])[defs[|defs| - 1].nodeType := defs[|defs| - 1]]
  }

  /** Exactly the types that occur in the list are registered. */
  lemma {:induction false} LastByTypeKeys(defs: seq<NodeDefinition>, t: string)
    ensures t in LastByType(defs) <==> Defines(defs, t)
    decreases |defs|
  {
    if defs != [] {
      var init := defs[..|defs| - 1];
      LastByTypeKeys(init, t);
      if Defines(init, t) {
        var i :| 0 <= i < |init| && init[i].nodeType == t;
        assert defs[i] == init[i];
      }
      if Defines(defs, t) && defs[|defs| - 1].nodeType != t {
        var i :| 0 <= i < |defs| && defs[i].nodeType == t;
        assert init[i] == defs[i];
      }
    }
  }

  /** For a type that occurs more than once, the last definition of that type wins. */
  lemma {:induction false} LastByTypeLastWins(defs: seq<NodeDefinition>, i: nat)
    requires i < |defs|
    requires forall j | i < j < |defs| :: defs[j].nodeType != defs[i].nodeType
    ensures defs[i].nodeType in LastByType(defs) && LastByType(defs)[defs[i].nodeType] == defs[i]
    decreases |defs|
  {
    if i < |defs| - 1 {
      var init := defs[..|defs| - 1];
      assert init[i] == defs[i];
      LastByTypeLastWins(init, i);
    }
  }

  /** Appending definitions registers them over the earlier record. */
  lemma {:induction false} LastByTypeConcat(a: seq<NodeDefinition>, b: seq<NodeDefinition>, t: string)
    ensures t in LastByType(a + b) <==> t in LastByType(a) || t in LastByType(b)
    ensures t in LastByType(b) ==> LastByType(a + b)[t] == LastByType(b)[t]
    ensures t in LastByType(a) && t !in LastByType(b) ==> LastByType(a + b)[t] == LastByType(a)[t]
    decreases |b|
  {
    if b == [] {
      assert a + b == a;
    } else {
      assert (a + b)[..|a + b| - 1] == a + b[..|b| - 1];
      LastByTypeConcat(a, b[..|b| - 1], t);
    }
  }
}
