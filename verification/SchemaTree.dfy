/** The mutable set of keys that `BuildTree` and its relatives thread through their recursion. */
module KeySets {
  import opened Foundation

  class KeySet {
    var values: set<Bytes>

    constructor ()
      ensures values == {}
    {
      values := {};
    }

    method Add(key: Bytes)
      modifies this
      ensures values == old(values) + {key}
    {
      values := values + {key};
    }

    method Remove(key: Bytes)
      modifies this
      ensures values == old(values) - {key}
    {
      values := values - {key};
    }

    predicate Contains(key: Bytes)
      reads this
    {
      key in values
    }
  }
}

/** `Schema.BuildTree`: expanding structure references into the tree the editor shows. */
module SchemaTree {
  import opened Foundation
  import opened Messages
  import opened Violations
  import opened TreeValidation
  import opened Graphs
  import opened Schemas
  import opened KeySets

  /** The children that belong under a type: one per field of the structure it names, in order, and none otherwise. */
  predicate Expands(s: Schema, fieldType: Option<FieldType>, children: seq<Option<TreeNode>>)
    decreases children, 0
  {
    var key := TypeReference(fieldType);
    if key == [] then children == []
    else
      && key in s.structures
      && |children| == |s.structures[key].fields|
      && forall i :: 0 <= i < |children| ==> ExpandsField(s, s.structures[key].fields[i], children[i])
  }

  predicate ExpandsField(s: Schema, field: Option<Field>, node: Option<TreeNode>)
    decreases node, 0
  {
    node.Some? && node.value.value == field && Expands(s, GetType(field), node.value.children)
  }

  /** The keys entered so far, in order, form a walk that the type under expansion continues. */
  ghost predicate Leads(s: Schema, trail: seq<Bytes>, fieldType: Option<FieldType>) {
    var key := TypeReference(fieldType);
    key != [] ==> IsWalk(References(s), trail + [key])
  }

  /** The recursive `children`. It fails only by meeting a key it is inside of, which an acyclic schema rules out. */
  method Children(s: Schema, fieldType: Option<FieldType>, path: KeySet, ghost trail: seq<Bytes>)
    returns (r: Result<seq<Option<TreeNode>>>)
    requires Resolved(s) && ResolvedType(s, fieldType)
    requires path.values == Members(trail) && Leads(s, trail, fieldType)
    modifies path
    ensures path.values == old(path.values)
    ensures r.Ok? ==> Expands(s, fieldType, r.value)
    ensures r.Err? ==> !Acyclic(References(s))
    decreases s.structures.Keys - path.values
  {
    var key := TypeReference(fieldType);
    if key == [] {
      return Ok([]);
    }
    if path.Contains(key) {
      assert (trail + [key])[..|trail|] == trail;
      ShownCycle(References(s), trail + [key]);
      return Err(Cycle([key]));
    }
    path.Add(key);
    var fields := s.structures[key].fields;
    var result: seq<Option<TreeNode>> := [];
    for i := 0 to |fields|
      invariant path.values == old(path.values) + {key} == Members(trail + [key])
      invariant |result| == i && forall j :: 0 <= j < i ==> ExpandsField(s, fields[j], result[j])
    {
      assert ValidField(s, fields[i]);
      StepLeads(s, trail, key, i);
      var children := Children(s, GetType(fields[i]), path, trail + [key]);
      if children.Err? {
        path.Remove(key);
        return children;
      }
      result := result + [Some(TreeNode(fields[i], children.value))];
    }
    path.Remove(key);
    return Ok(result);
  }

  lemma {:induction false} StepLeads(s: Schema, trail: seq<Bytes>, key: Bytes, i: nat)
    requires Resolved(s) && key in s.structures && i < |s.structures[key].fields|
    requires IsWalk(References(s), trail + [key])
    ensures Leads(s, trail + [key], GetType(s.structures[key].fields[i]))
  {
    if Reference(s.structures[key].fields[i]) != [] {
      ResolvedReference(s, key, i);
      WalkSnoc(References(s), trail + [key], Reference(s.structures[key].fields[i]));
    }
  }

  lemma {:induction false} StartLeads(s: Schema, fieldType: Option<FieldType>)
    ensures Leads(s, [], fieldType) && Members<Bytes>([]) == {}
  {
    assert [] + [TypeReference(fieldType)] == [TypeReference(fieldType)];
  }

  // "配置值" in UTF-8
  const ROOT_NAME: Bytes := [0xE9, 0x85, 0x8D, 0xE7, 0xBD, 0xAE, 0xE5, 0x80, 0xBC]

  /** On a schema that `NewSchema` returned, only a missing or unresolved type is refused; the tree is the expansion. */
  method BuildTree(s: Schema, config: Option<Config>) returns (r: Result<TreeNode>)
    requires Resolved(s)
    ensures Acyclic(References(s)) ==> (r.Ok? <==> config.Some? && ResolvedType(s, config.value.fieldType))
    ensures r.Ok? ==>
              && config.Some? && ResolvedType(s, config.value.fieldType) &&
              var field := Field(config.value.key, ROOT_NAME, config.value.description, config.value.isArray,
                                 config.value.fieldType);
              ExpandsField(s, Some(field), Some(r.value))
  {
    if config.None? || config.value.fieldType.None? {
      return Err(Invalid);
    }
    var mismatch := CheckType(s, config.value.fieldType);
    if mismatch.Some? {
      return Err(mismatch.value);
    }
    var root := Field(config.value.key, ROOT_NAME, config.value.description, config.value.isArray,
                      config.value.fieldType);
    var path := new KeySet();
    StartLeads(s, config.value.fieldType);
    var children := Children(s, config.value.fieldType, path, []);
    if children.Err? {
      return Err(children.error);
    }
    return Ok(TreeNode(Some(root), children.value));
  }

  /** There is only one expansion, so the contract of `BuildTree` determines its result. */
  lemma {:induction false} ExpansionUnique(
      s: Schema, fieldType: Option<FieldType>, a: seq<Option<TreeNode>>, b: seq<Option<TreeNode>>)
    requires Expands(s, fieldType, a) && Expands(s, fieldType, b)
    ensures a == b
    decreases a, 0
  {
    var key := TypeReference(fieldType);
    if key != [] {
      forall i | 0 <= i < |a|
        ensures a[i] == b[i]
      {
        NodeUnique(s, s.structures[key].fields[i], a[i], b[i]);
      }
    }
  }

  lemma {:induction false} NodeUnique(s: Schema, field: Option<Field>, a: Option<TreeNode>, b: Option<TreeNode>)
    requires ExpandsField(s, field, a) && ExpandsField(s, field, b)
    ensures a == b
    decreases a, 0
  {
    ExpansionUnique(s, GetType(field), a.value.children, b.value.children);
  }

  /** The field shown at a node, counting children from zero. */
  function ShownAt(node: Option<TreeNode>, path: seq<nat>): (r: Option<Option<Field>>)
    decreases path
  {
    if node.None? then None
    else if path == [] then Some(node.value.value)
    else if path[0] < |node.value.children| then ShownAt(node.value.children[path[0]], path[1..])
    else None
  }

  /** The field reached from another through the structures of the schema, counting fields from zero. */
  function FieldAt(s: Schema, field: Option<Field>, path: seq<nat>): (r: Option<Option<Field>>)
    decreases path
  {
    if path == [] then Some(field)
    else
      match GetType(field)
      case Some(FieldType(StructureKey(Some(key)))) =>
        if key in s.structures && path[0] < |s.structures[key].fields|
        then FieldAt(s, s.structures[key].fields[path[0]], path[1..])
        else None
      case _ => None
  }

  /** The expansion shows at every position, to any depth, the field that the definitions have there, and no other. */
  lemma {:induction false} ExpansionShowsFields(s: Schema, field: Option<Field>, node: Option<TreeNode>, path: seq<nat>)
    requires Resolved(s) && ExpandsField(s, field, node)
    ensures ShownAt(node, path) == FieldAt(s, field, path)
    decreases path
  {
    if path != [] {
      var key := TypeReference(GetType(field));
      if key != [] && path[0] < |node.value.children| {
        ExpansionShowsFields(s, s.structures[key].fields[path[0]], node.value.children[path[0]], path[1..]);
      }
    }
  }

  /** Every tree the domain layer builds passes the message validator, in both modes. */
  lemma {:induction false} ExpansionAccepted(s: Schema, field: Option<Field>, node: Option<TreeNode>)
    requires Resolved(s) && ExpandsField(s, field, node) && ResolvedType(s, GetType(field))
    ensures NodeErrors(node.value) == []
    decreases node, 0
  {
    assert CollectField(field).None?;
    ExpansionBelowAccepted(s, GetType(field), node.value.children);
    EmbedEachEmpty("TreeNode", "Children", CollectNodes(node.value.children), 0);
  }

  lemma {:induction false} ExpansionBelowAccepted(
      s: Schema, fieldType: Option<FieldType>, children: seq<Option<TreeNode>>)
    requires Resolved(s) && Expands(s, fieldType, children)
    ensures forall i :: 0 <= i < |children| ==> CollectNode(children[i]).None?
    decreases children, 0
  {
    var key := TypeReference(fieldType);
    if key != [] {
      forall i | 0 <= i < |children|
        ensures CollectNode(children[i]).None?
      {
        assert ValidField(s, s.structures[key].fields[i]);
        ExpansionAccepted(s, s.structures[key].fields[i], children[i]);
      }
    }
  }
}
