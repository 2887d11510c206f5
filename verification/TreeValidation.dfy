/**
 * `TreeNode.validate`, `Field.validate` and `Field_Type.validate`. Each method runs one body in two modes; its
 * contract ties both modes to the same list of violations, fail-fast being the first projection of that list.
 */
module TreeValidation {
  import opened Foundation
  import opened Decimal
  import opened Messages
  import opened Violations

  const TYPED_NIL := "oneof value cannot be a typed-nil"

  // ---- The violations of a message ----

  function TypeErrors(m: FieldType): (errors: seq<Error>) {
    Check(!IsTypedNil(m.kind), "Field_Type", "Kind", TYPED_NIL)
  }

  function CollectType(m: Option<FieldType>): (r: Option<Error>) {
    if m.None? then None else Outcome(true, "Field_Type", TypeErrors(m.value))
  }

  function FieldErrors(m: Field): (errors: seq<Error>) {
    Embed("Field", "Type", CollectType(m.fieldType))
  }

  function CollectField(m: Option<Field>): (r: Option<Error>) {
    if m.None? then None else Outcome(true, "Field", FieldErrors(m.value))
  }

  function NodeErrors(m: TreeNode): (errors: seq<Error>)
    decreases m, 0
  {
    Embed("TreeNode", "Value", CollectField(m.value)) + EmbedEach("TreeNode", "Children", CollectNodes(m.children), 0)
  }

  function CollectNode(m: Option<TreeNode>): (r: Option<Error>)
    decreases m, 0
  {
    if m.None? then None else Outcome(true, "TreeNode", NodeErrors(m.value))
  }

  function CollectNodes(ms: seq<Option<TreeNode>>): (r: seq<Option<Error>>)
    ensures |r| == |ms|
    ensures forall i :: 0 <= i < |ms| ==> r[i] == CollectNode(ms[i])
    decreases ms, 0
  {
    if ms == [] then [] else [CollectNode(ms[0])] + CollectNodes(ms[1..])
  }

  // ---- The validators ----

  method ValidateType(m: Option<FieldType>, all: bool) returns (r: Option<Error>)
    ensures r == if m.None? then None else Outcome(all, "Field_Type", TypeErrors(m.value))
  {
    if m.None? {
      return None;
    }
    var errors: seq<Error> := [];
    match m.value.kind {
      case BaseType(v) =>
        if v.None? {
          var err := Violation("Field_Type", "Kind", TYPED_NIL, None);
          if !all { return Some(err); }
          errors := errors + [err];
        }
      case StructureKey(v) =>
        if v.None? {
          var err := Violation("Field_Type", "Kind", TYPED_NIL, None);
          if !all { return Some(err); }
          errors := errors + [err];
        }
      case EnumKey(v) =>
        if v.None? {
          var err := Violation("Field_Type", "Kind", TYPED_NIL, None);
          if !all { return Some(err); }
          errors := errors + [err];
        }
      case NoKind =>
    }
    assert errors == TypeErrors(m.value);
    if |errors| > 0 {
      return Some(MultiError("Field_Type", errors));
    }
    return None;
  }

  method ValidateField(m: Option<Field>, all: bool) returns (r: Option<Error>)
    ensures r == if m.None? then None else Outcome(all, "Field", FieldErrors(m.value))
  {
    if m.None? {
      return None;
    }
    var errors: seq<Error> := [];
    var err := ValidateType(GetType(m), all);
    if err.Some? {
      var wrapped := Violation("Field", "Type", EMBEDDED, err);
      if !all { return Some(wrapped); }
      errors := errors + [wrapped];
    }
    assert errors == FieldErrors(m.value);
    if |errors| > 0 {
      return Some(MultiError("Field", errors));
    }
    return None;
  }

  method ValidateNode(m: Option<TreeNode>, all: bool) returns (r: Option<Error>)
    ensures r == if m.None? then None else Outcome(all, "TreeNode", NodeErrors(m.value))
    decreases m
  {
    if m.None? {
      return None;
    }
    ghost var own := Embed("TreeNode", "Value", CollectField(m.value.value));
    ghost var below := CollectNodes(m.value.children);
    assert NodeErrors(m.value) == own + EmbedEach("TreeNode", "Children", below, 0);
    var errors: seq<Error> := [];
    var err := ValidateField(m.value.value, all);
    if err.Some? {
      var wrapped := Violation("TreeNode", "Value", EMBEDDED, err);
      FirstOfEmbedded("TreeNode", "Value", "Field", FieldErrors(m.value.value.value));
      if !all { return Some(wrapped); }
      errors := errors + [wrapped];
    }
    assert errors == own;
    var children := m.value.children;
    for idx := 0 to |children|
      invariant errors == own + EmbedEach("TreeNode", "Children", below[..idx], 0)
      invariant !all ==> errors == []
    {
      EmbedEachStep("TreeNode", "Children", below, idx);
      err := ValidateNode(children[idx], all);
      if err.Some? {
        var wrapped := Violation("TreeNode", Label("Children", idx), EMBEDDED, err);
        if !all {
          FirstOfEmbedEach("TreeNode", "Children", own, below, idx, "TreeNode", NodeErrors(children[idx].value));
          return Some(wrapped);
        }
        errors := errors + [wrapped];
      }
    }
    assert below[..|children|] == below;
    if |errors| > 0 {
      return Some(MultiError("TreeNode", errors));
    }
    return None;
  }

  // ---- Which nodes are reported: an independent account of the typed nils of a tree ----

  /** Whether the node reached by the child indices `path` holds a typed-nil oneof. */
  predicate TypedNilAt(m: TreeNode, path: seq<nat>)
    decreases path
  {
    if path == [] then
      m.value.Some? && m.value.value.fieldType.Some? && IsTypedNil(m.value.value.fieldType.value.kind)
    else
      path[0] < |m.children| && m.children[path[0]].Some? && TypedNilAt(m.children[path[0]].value, path[1..])
  }

  /** Pre-order: a node before its descendants, an earlier child's subtree before a later child's. */
  predicate PreOrder(p: seq<nat>, q: seq<nat>) {
    q != [] && (p == [] || p[0] < q[0] || (p[0] == q[0] && PreOrder(p[1..], q[1..])))
  }

  /** The labels from the root's own violation down to the oneof of the node at `path`. */
  function Labels(path: seq<nat>): (labels: seq<string>)
    ensures |labels| == |path| + 3
  {
    if path == [] then ["Value", "Type", "Kind"] else [Label("Children", path[0])] + Labels(path[1..])
  }

  function TypedNils(m: TreeNode): (paths: seq<seq<nat>>)
    decreases m, 0
  {
    (if TypedNilAt(m, []) then [[]] else []) + TypedNilsBelow(m.children, 0)
  }

  function TypedNilsIn(m: Option<TreeNode>): (paths: seq<seq<nat>>)
    decreases m, 0
  {
    if m.None? then [] else TypedNils(m.value)
  }

  function TypedNilsBelow(ms: seq<Option<TreeNode>>, from: nat): (paths: seq<seq<nat>>)
    decreases ms, 0
  {
    if ms == [] then []
    else Prefixed(from, TypedNilsIn(ms[0])) + TypedNilsBelow(ms[1..], from + 1)
  }

  function LabelsOf(paths: seq<seq<nat>>): (r: seq<seq<string>>)
    ensures |r| == |paths|
    ensures forall i :: 0 <= i < |paths| ==> r[i] == Labels(paths[i])
  {
    seq(|paths|, i requires 0 <= i < |paths| => Labels(paths[i]))
  }

  lemma {:induction false} LeavesOfField(m: Option<Field>)
    ensures LeavesOf(CollectField(m))
         == if m.Some? && m.value.fieldType.Some? && IsTypedNil(m.value.fieldType.value.kind)
            then [["Type", "Kind"]] else []
  {
    if m.Some? {
      LeavesOfEmbed("Field", "Type", CollectType(m.value.fieldType));
      if m.value.fieldType.Some? && IsTypedNil(m.value.fieldType.value.kind) {
        assert LeavesOfAll(TypeErrors(m.value.fieldType.value)) == [["Kind"]];
        assert ["Type"] + ["Kind"] == ["Type", "Kind"];
      }
    }
  }

  lemma {:induction false} LeavesOfValue(m: TreeNode)
    ensures LeavesOfAll(Embed("TreeNode", "Value", CollectField(m.value)))
         == if TypedNilAt(m, []) then [["Value", "Type", "Kind"]] else []
  {
    LeavesOfEmbed("TreeNode", "Value", CollectField(m.value));
    LeavesOfField(m.value);
    assert ["Value"] + ["Type", "Kind"] == ["Value", "Type", "Kind"];
  }

  lemma {:induction false} LeavesAreTypedNils(m: TreeNode)
    ensures LeavesOfAll(NodeErrors(m)) == LabelsOf(TypedNils(m))
    decreases m, 0
  {
    LeavesOfValue(m);
    LeavesBelow(m.children, 0);
    LeavesOfConcat(Embed("TreeNode", "Value", CollectField(m.value)),
                   EmbedEach("TreeNode", "Children", CollectNodes(m.children), 0));
  }

  lemma {:induction false} LeavesInAreTypedNils(m: Option<TreeNode>)
    ensures LeavesOf(CollectNode(m)) == LabelsOf(TypedNilsIn(m))
    decreases m, 0
  {
    if m.Some? {
      LeavesAreTypedNils(m.value);
    }
  }

  lemma {:induction false} LabelsOfPrefixed(from: nat, paths: seq<seq<nat>>)
    ensures LabelsOf(Prefixed(from, paths)) == Prefixed(Label("Children", from), LabelsOf(paths))
  {
    forall i | 0 <= i < |paths|
      ensures Labels([from] + paths[i]) == [Label("Children", from)] + Labels(paths[i])
    {
      assert ([from] + paths[i])[1..] == paths[i];
    }
  }

  lemma {:induction false} LabelsOfConcat(ps: seq<seq<nat>>, qs: seq<seq<nat>>)
    ensures LabelsOf(ps + qs) == LabelsOf(ps) + LabelsOf(qs)
  {
  }

  lemma {:induction false} LeavesBelow(ms: seq<Option<TreeNode>>, from: nat)
    ensures LeavesOfAll(EmbedEach("TreeNode", "Children", CollectNodes(ms), from)) == LabelsOf(TypedNilsBelow(ms, from))
    decreases ms, 0
  {
    if ms != [] {
      LeavesBelow(ms[1..], from + 1);
      LeavesInAreTypedNils(ms[0]);
      LabelsOfPrefixed(from, TypedNilsIn(ms[0]));
      LabelsOfConcat(Prefixed(from, TypedNilsIn(ms[0])), TypedNilsBelow(ms[1..], from + 1));
      LeavesOfEmbed("TreeNode", Label("Children", from), CollectNode(ms[0]));
      LeavesOfConcat(Embed("TreeNode", Label("Children", from), CollectNode(ms[0])),
                     EmbedEach("TreeNode", "Children", CollectNodes(ms[1..]), from + 1));
      assert CollectNodes(ms)[1..] == CollectNodes(ms[1..]);
    }
  }

  lemma {:induction false} TypedNilsComplete(m: TreeNode, path: seq<nat>)
    ensures path in TypedNils(m) <==> TypedNilAt(m, path)
    decreases m, 0
  {
    TypedNilsBelowComplete(m.children, 0, path);
    assert path == [] || path in TypedNils(m) <==> path == [] || path in TypedNilsBelow(m.children, 0);
  }

  predicate TypedNilIn(m: Option<TreeNode>, path: seq<nat>) {
    m.Some? && TypedNilAt(m.value, path)
  }

  /** Whether the path leads to a typed nil through one of the nodes, numbered from `from`. */
  predicate TypedNilBelow(ms: seq<Option<TreeNode>>, from: nat, path: seq<nat>) {
    path != [] && from <= path[0] < from + |ms| && TypedNilIn(ms[path[0] - from], path[1..])
  }

  lemma {:induction false} TypedNilsInComplete(m: Option<TreeNode>, path: seq<nat>)
    ensures path in TypedNilsIn(m) <==> TypedNilIn(m, path)
    decreases m, 0
  {
    if m.Some? {
      TypedNilsComplete(m.value, path);
    }
  }

  lemma {:induction false} PrefixedComplete(from: nat, inner: seq<seq<nat>>, path: seq<nat>)
    ensures path in Prefixed(from, inner) <==> path != [] && path[0] == from && path[1..] in inner
  {
    if path != [] && path[0] == from && path[1..] in inner {
      var i :| 0 <= i < |inner| && inner[i] == path[1..];
      assert Prefixed(from, inner)[i] == path;
    }
  }

  lemma {:induction false} TypedNilBelowSplit(ms: seq<Option<TreeNode>>, from: nat, path: seq<nat>)
    requires ms != []
    ensures TypedNilBelow(ms, from, path)
       <==> (path != [] && path[0] == from && TypedNilIn(ms[0], path[1..])) || TypedNilBelow(ms[1..], from + 1, path)
  {
    if path != [] && from < path[0] < from + |ms| {
      assert ms[path[0] - from] == ms[1..][path[0] - (from + 1)];
    }
  }

  lemma {:induction false} TypedNilsBelowComplete(ms: seq<Option<TreeNode>>, from: nat, path: seq<nat>)
    ensures path in TypedNilsBelow(ms, from) <==> TypedNilBelow(ms, from, path)
    decreases ms, 0
  {
    if ms != [] {
      TypedNilsBelowComplete(ms[1..], from + 1, path);
      PrefixedComplete(from, TypedNilsIn(ms[0]), path);
      if path != [] {
        TypedNilsInComplete(ms[0], path[1..]);
      }
      TypedNilBelowSplit(ms, from, path);
      var head, rest := Prefixed(from, TypedNilsIn(ms[0])), TypedNilsBelow(ms[1..], from + 1);
      assert path in head + rest <==> path in head || path in rest;
    }
  }

  predicate InPreOrder(paths: seq<seq<nat>>) {
    forall i, j :: 0 <= i < j < |paths| ==> PreOrder(paths[i], paths[j])
  }

  predicate StartFrom(paths: seq<seq<nat>>, from: nat) {
    forall i :: 0 <= i < |paths| ==> paths[i] != [] && paths[i][0] >= from
  }

  lemma {:induction false} PrefixedInPreOrder(from: nat, inner: seq<seq<nat>>, rest: seq<seq<nat>>)
    requires InPreOrder(inner) && InPreOrder(rest) && StartFrom(rest, from + 1)
    ensures InPreOrder(Prefixed(from, inner) + rest) && StartFrom(Prefixed(from, inner) + rest, from)
  {
    var head := Prefixed(from, inner);
    forall i, j | 0 <= i < j < |head|
      ensures PreOrder(head[i], head[j])
    {
      assert head[i][1..] == inner[i] && head[j][1..] == inner[j];
    }
  }

  lemma {:induction false} TypedNilsOrdered(m: TreeNode)
    ensures InPreOrder(TypedNils(m))
    decreases m, 0
  {
    TypedNilsBelowOrdered(m.children, 0);
    var below := TypedNilsBelow(m.children, 0);
    assert InPreOrder([[]] + below);
    assert [] + below == below;
  }

  lemma {:induction false} TypedNilsInOrdered(m: Option<TreeNode>)
    ensures InPreOrder(TypedNilsIn(m))
    decreases m, 0
  {
    if m.Some? {
      TypedNilsOrdered(m.value);
    }
  }

  lemma {:induction false} TypedNilsBelowOrdered(ms: seq<Option<TreeNode>>, from: nat)
    ensures InPreOrder(TypedNilsBelow(ms, from)) && StartFrom(TypedNilsBelow(ms, from), from)
    decreases ms, 0
  {
    if ms != [] {
      TypedNilsBelowOrdered(ms[1..], from + 1);
      TypedNilsInOrdered(ms[0]);
      PrefixedInPreOrder(from, TypedNilsIn(ms[0]), TypedNilsBelow(ms[1..], from + 1));
    }
  }

  lemma {:induction false} LabelsInjective(p: seq<nat>, q: seq<nat>)
    requires Labels(p) == Labels(q)
    ensures p == q
  {
    if p != [] {
      assert Label("Children", p[0]) == Labels(p)[0] == Labels(q)[0] == Label("Children", q[0]);
      LabelInjective("Children", p[0], q[0]);
      assert Labels(p)[1..] == Labels(p[1..]) && Labels(q)[1..] == Labels(q[1..]);
      LabelsInjective(p[1..], q[1..]);
      assert p == [p[0]] + p[1..] && q == [q[0]] + q[1..];
    }
  }

  lemma {:induction false} PreOrderIrreflexive(p: seq<nat>)
    ensures !PreOrder(p, p)
  {
    if p != [] {
      PreOrderIrreflexive(p[1..]);
    }
  }

  /** `ValidateAll` reports each typed nil of the tree exactly once, in pre-order, and nothing else. */
  lemma {:induction false} ReportsExactlyTheTypedNils(m: TreeNode)
    ensures var leaves, nils := LeavesOfAll(NodeErrors(m)), TypedNils(m);
            && |leaves| == |nils|
            && (forall i :: 0 <= i < |nils| ==> leaves[i] == Labels(nils[i]))
            && (forall path :: path in nils <==> TypedNilAt(m, path))
            && (forall i, j :: 0 <= i < j < |nils| ==> PreOrder(nils[i], nils[j]) && leaves[i] != leaves[j])
  {
    LeavesAreTypedNils(m);
    TypedNilsOrdered(m);
    var nils := TypedNils(m);
    forall path
      ensures path in nils <==> TypedNilAt(m, path)
    {
      TypedNilsComplete(m, path);
    }
    forall i, j | 0 <= i < j < |nils|
      ensures Labels(nils[i]) != Labels(nils[j])
    {
      PreOrderIrreflexive(nils[i]);
      if Labels(nils[i]) == Labels(nils[j]) {
        LabelsInjective(nils[i], nils[j]);
      }
    }
  }

  lemma {:induction false} NodeErrorsInhabited(m: TreeNode)
    ensures AllInhabited(NodeErrors(m))
    decreases m, 0
  {
    NodeErrorsBelowInhabited(m.children, 0);
    assert AllInhabited(Embed("TreeNode", "Value", CollectField(m.value))) by {
      if m.value.Some? {
        assert AllInhabited(FieldErrors(m.value.value));
      }
    }
  }

  lemma {:induction false} CollectNodeInhabited(m: Option<TreeNode>)
    ensures CollectNode(m).Some? ==> Inhabited(CollectNode(m).value)
    decreases m, 0
  {
    if m.Some? {
      NodeErrorsInhabited(m.value);
    }
  }

  lemma {:induction false} NodeErrorsBelowInhabited(ms: seq<Option<TreeNode>>, from: nat)
    ensures AllInhabited(EmbedEach("TreeNode", "Children", CollectNodes(ms), from))
    decreases ms, 0
  {
    if ms != [] {
      NodeErrorsBelowInhabited(ms[1..], from + 1);
      CollectNodeInhabited(ms[0]);
      assert CollectNodes(ms)[1..] == CollectNodes(ms[1..]);
    }
  }

  ghost predicate FirstTypedNil(m: TreeNode, path: seq<nat>) {
    TypedNilAt(m, path) && forall other :: TypedNilAt(m, other) ==> other == path || PreOrder(path, other)
  }

  /** `Validate` fails exactly when `ValidateAll` does, and then returns one chain down to the first typed nil. */
  lemma {:induction false} FailFastReportsTheFirstTypedNil(m: TreeNode)
    ensures var fast := Outcome(false, "TreeNode", NodeErrors(m));
            && (fast.None? ==> forall path :: !TypedNilAt(m, path))
            && (fast.Some? ==> IsChain(fast.value)
                               && exists path :: FirstTypedNil(m, path) && Leaves(fast.value) == [Labels(path)])
  {
    var errors := NodeErrors(m);
    ReportsExactlyTheTypedNils(m);
    NodeErrorsInhabited(m);
    if errors == [] {
      forall path
        ensures !TypedNilAt(m, path)
      {
        assert path !in TypedNils(m);
      }
    } else {
      FirstProjectionIsChain(errors[0]);
      FirstProjectionLeaf(errors[0]);
      var nils := TypedNils(m);
      assert LeavesOfAll(errors)[0] == Leaves(errors[0])[0];
      assert TypedNilAt(m, nils[0]) by { assert nils[0] in nils; }
      forall other | TypedNilAt(m, other)
        ensures other == nils[0] || PreOrder(nils[0], other)
      {
        assert other in nils;
      }
    }
  }

  lemma {:induction false} FirstProjectionLeaf(e: Error)
    requires Inhabited(e)
    ensures Leaves(e) != [] && Leaves(FirstProjection(e)) == [Leaves(e)[0]]
  {
    match e
    case Violation(_, _, _, cause) =>
      if cause.Some? { FirstProjectionLeaf(cause.value); }
    case MultiError(_, errors) =>
      FirstProjectionLeaf(errors[0]);
  }

  // ---- What validation buys: the getters of an accepted tree never panic ----

  /** The type of the field at the node reached by `path`, as the nil-safe getters see it. */
  function TypeAt(m: TreeNode, path: seq<nat>): (r: Option<FieldType>)
    decreases path
  {
    if path == [] then GetType(m.value)
    else if path[0] < |m.children| && m.children[path[0]].Some? then TypeAt(m.children[path[0]].value, path[1..])
    else None
  }

  predicate GettersReturn(x: Option<FieldType>) {
    GetBaseType(x).Read? && GetStructureKey(x).Read? && GetEnumKey(x).Read?
  }

  /** Each getter reads its own case of the oneof and finds the default in every other. */
  lemma {:induction false} GettersReadTheirCase(baseType: int, key: Bytes)
    ensures var x := Some(FieldType(BaseType(Some(baseType))));
            GetBaseType(x) == Read(baseType) && GetStructureKey(x) == Read([]) && GetEnumKey(x) == Read([])
    ensures var x := Some(FieldType(StructureKey(Some(key))));
            GetBaseType(x) == Read(0) && GetStructureKey(x) == Read(key) && GetEnumKey(x) == Read([])
    ensures var x := Some(FieldType(EnumKey(Some(key))));
            GetBaseType(x) == Read(0) && GetStructureKey(x) == Read([]) && GetEnumKey(x) == Read(key)
  {
  }

  lemma {:induction false} GettersFailOnlyOnTypedNil(m: TreeNode, path: seq<nat>)
    ensures GettersReturn(TypeAt(m, path)) <==> !TypedNilAt(m, path)
    decreases path
  {
    if path != [] && path[0] < |m.children| && m.children[path[0]].Some? {
      GettersFailOnlyOnTypedNil(m.children[path[0]].value, path[1..]);
    }
  }

  /**
   * A tree is accepted, in either mode, exactly when no getter dereferences a nil wrapper anywhere in it; then at
   * most one of the three getters of a node differs from its default.
   */
  lemma {:induction false} AcceptedIffGettersReturn(m: TreeNode, all: bool)
    ensures Outcome(all, "TreeNode", NodeErrors(m)).None? <==> forall path :: GettersReturn(TypeAt(m, path))
    ensures Outcome(all, "TreeNode", NodeErrors(m)).None? ==>
              forall path :: var x := TypeAt(m, path);
                (if GetBaseType(x) != Read(BASE_TYPE_UNSPECIFIED) then 1 else 0)
                + (if GetStructureKey(x) != Read([]) then 1 else 0)
                + (if GetEnumKey(x) != Read([]) then 1 else 0) <= 1
  {
    FailFastReportsTheFirstTypedNil(m);
    forall path
      ensures GettersReturn(TypeAt(m, path)) <==> !TypedNilAt(m, path)
    {
      GettersFailOnlyOnTypedNil(m, path);
    }
    if NodeErrors(m) != [] {
      var path :| FirstTypedNil(m, path);
      assert !GettersReturn(TypeAt(m, path));
    }
  }
}
