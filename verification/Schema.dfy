/** `entity.NewSchema`: which structure and enum definitions are accepted, and the search for reference cycles. */
module Schemas {
  import opened Foundation
  import opened Messages
  import opened Utf8
  import opened Requests
  import opened Graphs

  datatype Schema = Schema(structures: map<Bytes, Structure>, enums: map<Bytes, ConfigEnum>)

  /** `Invalid` and `Conflict` as the source returns them, and the panic of reading a typed-nil oneof. */
  datatype SchemaError =
    | Invalid
    | DuplicateKey(key: Bytes)
    | Cycle(path: seq<Bytes>)
    | NilOneof

  datatype Result<+T> = Ok(value: T) | Err(error: SchemaError)

  // ---- What makes definitions acceptable ----

  predicate ValidName(name: Bytes) {
    !Blank(name) && RuneCount(name) <= 64
  }

  predicate ValidTexts(key: Bytes, name: Bytes, description: Bytes) {
    ValidKey(key) && ValidName(name) && RuneCount(description) <= 255
  }

  function OptionValues(values: seq<Option<SelectOption>>): (r: seq<Bytes>)
    ensures |r| == |values|
  {
    seq(|values|, i requires 0 <= i < |values| => if values[i].None? then [] else values[i].value.value)
  }

  predicate ValidOption(option: Option<SelectOption>) {
    option.Some? && OptionPattern(option.value.value) && ValidName(option.value.display)
    && RuneCount(option.value.description) <= 255
  }

  predicate ValidValues(values: seq<Option<SelectOption>>) {
    (forall i :: 0 <= i < |values| ==> ValidOption(values[i])) && AllDistinct(OptionValues(values))
  }

  predicate ValidEnum(item: Option<ConfigEnum>) {
    item.Some? && ValidTexts(item.value.key, item.value.name, item.value.description)
    && item.value.values != [] && ValidValues(item.value.values)
  }

  predicate ValidEnumHeader(item: Option<ConfigEnum>) {
    item.Some? && ValidTexts(item.value.key, item.value.name, item.value.description) && item.value.values != []
  }

  predicate ValidHeader(item: Option<Structure>) {
    item.Some? && ValidTexts(item.value.key, item.value.name, item.value.description)
  }

  /** A set, in-range or resolvable oneof case; a typed-nil one is none of these. */
  predicate ResolvedType(s: Schema, fieldType: Option<FieldType>) {
    fieldType.Some?
    && match fieldType.value.kind
       case BaseType(Some(b)) => STRING <= b <= FILE
       case StructureKey(Some(key)) => key in s.structures
       case EnumKey(Some(key)) => key in s.enums
       case _ => false
  }

  predicate ValidField(s: Schema, field: Option<Field>) {
    field.Some? && ValidTexts(field.value.key, field.value.name, field.value.description)
    && ResolvedType(s, field.value.fieldType)
  }

  predicate TypedNilField(field: Option<Field>) {
    GetType(field).Some? && IsTypedNil(GetType(field).value.kind)
  }

  /** The keys of a list of items, in order; an absent item counts as having the empty key. */
  function KeysOf<T>(items: seq<Option<T>>, key: T -> Bytes): (r: seq<Bytes>)
    ensures |r| == |items|
  {
    seq(|items|, i requires 0 <= i < |items| => if items[i].None? then [] else key(items[i].value))
  }

  function FieldKey(field: Field): (key: Bytes) {
    field.key
  }

  function StructureKeyOf(item: Structure): (key: Bytes) {
    item.key
  }

  function EnumKeyOf(item: ConfigEnum): (key: Bytes) {
    item.key
  }

  function FieldKeys(fields: seq<Option<Field>>): (r: seq<Bytes>)
    ensures |r| == |fields|
    ensures forall i :: 0 <= i < |fields| ==> r[i] == if fields[i].None? then [] else fields[i].value.key
  {
    KeysOf(fields, FieldKey)
  }

  predicate ValidFields(s: Schema, fields: seq<Option<Field>>) {
    (forall i :: 0 <= i < |fields| ==> ValidField(s, fields[i])) && AllDistinct(FieldKeys(fields))
  }

  /** Every field before the k-th is in order. */
  predicate FieldsInOrder(s: Schema, fields: seq<Option<Field>>, k: nat) {
    k <= |fields| && (forall j :: 0 <= j < k ==> ValidField(s, fields[j])) && AllDistinct(FieldKeys(fields)[..k])
  }

  /** Everything before the type of field `i` is in order, and that type is a typed nil: the check reads through it. */
  predicate MeetsTypedNil(s: Schema, fields: seq<Option<Field>>, i: nat) {
    && FieldsInOrder(s, fields, i) && i < |fields| && TypedNilField(fields[i])
    && ValidTexts(fields[i].value.key, fields[i].value.name, fields[i].value.description)
    && FieldKeys(fields)[i] !in FieldKeys(fields)[..i]
  }

  function StructureKeys(items: seq<Option<Structure>>): (r: seq<Bytes>) {
    KeysOf(items, StructureKeyOf)
  }

  function EnumKeys(items: seq<Option<ConfigEnum>>): (r: seq<Bytes>) {
    KeysOf(items, EnumKeyOf)
  }

  /** Whether the map holds exactly the listed items, each under its own key. */
  ghost predicate IsIndex<T>(m: map<Bytes, T>, items: seq<Option<T>>, key: T -> Bytes) {
    (forall i :: 0 <= i < |items| ==>
       items[i].Some? && key(items[i].value) in m && m[key(items[i].value)] == items[i].value)
    && (forall k :: k in m ==> k in KeysOf(items, key))
  }

  /** The items before the n-th are acceptable and have different keys. */
  predicate InOrder<T>(items: seq<Option<T>>, valid: Option<T> -> bool, key: T -> Bytes, n: nat) {
    n <= |items| && (forall j :: 0 <= j < n ==> valid(items[j])) && AllDistinct(KeysOf(items, key)[..n])
  }

  /** Item `i` is the first thing wrong, and what is wrong with it is that an earlier item has its key `k`. */
  predicate RepeatsKey<T>(
      items: seq<Option<T>>, valid: Option<T> -> bool, header: Option<T> -> bool, key: T -> Bytes, i: nat, k: Bytes)
  {
    && InOrder(items, valid, key, i) && i < |items| && header(items[i])
    && KeysOf(items, key)[i] == k && k in KeysOf(items, key)[..i]
  }

  predicate StructureRepeats(items: seq<Option<Structure>>, i: nat, k: Bytes) {
    RepeatsKey(items, ValidHeader, ValidHeader, StructureKeyOf, i, k)
  }

  predicate EnumRepeats(items: seq<Option<ConfigEnum>>, i: nat, k: Bytes) {
    RepeatsKey(items, ValidEnum, ValidEnumHeader, EnumKeyOf, i, k)
  }

  ghost predicate Indexes(s: Schema, structures: seq<Option<Structure>>, enums: seq<Option<ConfigEnum>>) {
    IsIndex(s.structures, structures, StructureKeyOf) && IsIndex(s.enums, enums, EnumKeyOf)
  }

  /** Headers and enums are well formed, and no key repeats among the structures or among the enums. */
  predicate DefinitionsInOrder(structures: seq<Option<Structure>>, enums: seq<Option<ConfigEnum>>) {
    && (forall j :: 0 <= j < |structures| ==> ValidHeader(structures[j]))
    && AllDistinct(StructureKeys(structures))
    && (forall j :: 0 <= j < |enums| ==> ValidEnum(enums[j]))
    && AllDistinct(EnumKeys(enums))
  }

  predicate FirstMeetsTypedNil(s: Schema, structures: seq<Option<Structure>>, k: nat, i: nat)
    requires forall j :: 0 <= j < |structures| ==> structures[j].Some?
  {
    && k < |structures| && (forall j :: 0 <= j < k ==> ValidFields(s, structures[j].value.fields))
    && MeetsTypedNil(s, structures[k].value.fields, i)
  }

  /** Headers and enums make an index, and the first field to fail, field `i` of structure `k`, holds a typed nil. */
  ghost predicate ReadsTypedNil(
      structures: seq<Option<Structure>>, enums: seq<Option<ConfigEnum>>, s: Schema, k: nat, i: nat)
  {
    && DefinitionsInOrder(structures, enums)
    && Indexes(s, structures, enums)
    && FirstMeetsTypedNil(s, structures, k, i)
  }

  /** The definitions make a schema: well-formed items under distinct keys, every reference resolved, no cycle. */
  ghost predicate Defines(structures: seq<Option<Structure>>, enums: seq<Option<ConfigEnum>>, s: Schema) {
    && DefinitionsInOrder(structures, enums)
    && Indexes(s, structures, enums)
    && (forall i :: 0 <= i < |structures| ==> ValidFields(s, structures[i].value.fields))
    && Acyclic(References(s))
  }

  // ---- The rules in terms of texts and types ----

  /** Names are at most 64 runes and not just white space, descriptions at most 255 runes. */
  lemma {:induction false} TextsAccepted(key: Bytes, name: Bytes, description: Bytes)
    ensures ValidTexts(key, name, description)
       <==> && ValidKey(key) && RuneCount(name) <= 64 && RuneCount(description) <= 255
            && !exists cs :: AllSpaces(cs) && name == EncodeAll(cs)
  {
    BlankIsSpaces(name);
  }

  lemma {:induction false} OptionDefinitionAccepted(display: Bytes, value: Bytes, description: Bytes)
    ensures ValidOption(Some(SelectOption(display, value, description)))
       <==> && OptionPattern(value) && RuneCount(display) <= 64 && RuneCount(description) <= 255
            && !exists cs :: AllSpaces(cs) && display == EncodeAll(cs)
  {
    BlankIsSpaces(display);
  }

  /** There are thirteen base types, and a key must be one that is defined for its kind. */
  lemma {:induction false} TypesResolved(s: Schema, baseType: int, key: Bytes)
    ensures ResolvedType(s, Some(FieldType(BaseType(Some(baseType))))) <==> 1 <= baseType <= 13
    ensures ResolvedType(s, Some(FieldType(StructureKey(Some(key))))) <==> key in s.structures
    ensures ResolvedType(s, Some(FieldType(EnumKey(Some(key))))) <==> key in s.enums
    ensures forall t: Option<FieldType> ::
              t.None? || t.value.kind.NoKind? || IsTypedNil(t.value.kind) ==> !ResolvedType(s, t)
  {
  }

  // ---- The reference graph ----

  /** The structure a type refers to, or the empty key. */
  function TypeReference(fieldType: Option<FieldType>): (key: Bytes) {
    var key := GetStructureKey(fieldType);
    if key.Read? then key.value else []
  }

  function Reference(field: Option<Field>): (key: Bytes) {
    TypeReference(GetType(field))
  }

  function ReferencesOf(fields: seq<Option<Field>>): (keys: set<Bytes>) {
    set i | 0 <= i < |fields| && Reference(fields[i]) != [] :: Reference(fields[i])
  }

  function References(s: Schema): (g: Graph) {
    map k | k in s.structures :: ReferencesOf(s.structures[k].fields)
  }

  /** One structure refers to another exactly if a field of it has the other's key as its type. */
  lemma {:induction false} ReferencesAreFields(s: Schema, a: Bytes, b: Bytes)
    ensures Edge(References(s), a, b)
       <==> && a in s.structures && b != []
            && var fields := s.structures[a].fields;
               exists i :: 0 <= i < |fields| && fields[i].Some?
                           && fields[i].value.fieldType == Some(FieldType(StructureKey(Some(b))))
  {
    if a in s.structures {
      var fields := s.structures[a].fields;
      assert forall i :: 0 <= i < |fields| && b != [] ==>
          (Reference(fields[i]) == b
           <==> fields[i].Some? && fields[i].value.fieldType == Some(FieldType(StructureKey(Some(b)))));
    }
  }

  /** Every field of every structure is present, resolved, and uniquely named. */
  predicate Resolved(s: Schema) {
    (forall k :: k in s.structures ==> s.structures[k].key == k && k != [] && ValidFields(s, s.structures[k].fields))
    && (forall k :: k in s.enums ==> ValidEnum(Some(s.enums[k])))
  }

  lemma {:induction false} ResolvedReference(s: Schema, k: Bytes, i: nat)
    requires Resolved(s) && k in s.structures && i < |s.structures[k].fields|
    requires Reference(s.structures[k].fields[i]) != []
    ensures Edge(References(s), k, Reference(s.structures[k].fields[i]))
    ensures Reference(s.structures[k].fields[i]) in s.structures
  {
    assert ValidField(s, s.structures[k].fields[i]);
  }

  /** The two sets that the recursive closure of `validateCycles` shares, and what they mean. */
  class CycleSearch {
    const schema: Schema
    var visiting: set<Bytes>
    var visited: set<Bytes>
    // The keys in the order in which their visit finished.
    ghost var finished: seq<Bytes>

    ghost predicate Valid()
      reads this
    {
      && visiting !! visited
      && visited == Members(finished)
      && Layered(References(schema), finished)
    }

    constructor (schema: Schema)
      ensures Valid() && this.schema == schema && visiting == visited == {}
    {
      this.schema := schema;
      visiting, visited, finished := {}, {}, [];
    }

    /** Depth-first from `key`, having come along `path`: either everything below is finished, or a cycle is shown. */
    method Walk(key: Bytes, path: seq<Bytes>) returns (cycle: Option<seq<Bytes>>)
      requires Valid() && Resolved(schema) && key in schema.structures
      requires visiting == Members(path) && IsWalk(References(schema), path + [key])
      modifies this
      ensures cycle.None? ==> Valid() && visiting == old(visiting) && old(visited) <= visited && key in visited
      ensures cycle.Some? ==> ShowsCycle(References(schema), cycle.value)
      decreases schema.structures.Keys - visiting
    {
      if key in visiting {
        assert (path + [key])[..|path|] == path;
        return Some(path + [key]);
      }
      if key in visited {
        return None;
      }
      visiting := visiting + {key};
      assert visiting == Members(path + [key]);
      var fields := schema.structures[key].fields;
      for i := 0 to |fields|
        invariant Valid() && visiting == old(visiting) + {key} && old(visited) <= visited
        invariant forall j :: 0 <= j < i && Reference(fields[j]) != [] ==> Reference(fields[j]) in visited
      {
        var dependency := Reference(fields[i]);
        if dependency != [] {
          ResolvedReference(schema, key, i);
          WalkSnoc(References(schema), path + [key], dependency);
          cycle := Walk(dependency, path + [key]);
          if cycle.Some? {
            return cycle;
          }
        }
      }
      LayeredSnoc(References(schema), finished, key);
      visiting := visiting - {key};
      visited := visited + {key};
      finished := finished + [key];
      return None;
    }
  }

  lemma {:induction false} WalkSnoc(g: Graph, p: seq<Bytes>, k: Bytes)
    requires IsWalk(g, p) && Edge(g, p[|p| - 1], k)
    ensures IsWalk(g, p + [k])
  {
  }

  /** `validateCycles`: the start keys come in no particular order, as in a Go map. */
  method ValidateCycles(s: Schema) returns (cycle: Option<seq<Bytes>>)
    requires Resolved(s)
    ensures cycle.None? <==> Acyclic(References(s))
    ensures cycle.Some? ==> ShowsCycle(References(s), cycle.value)
  {
    var search := new CycleSearch(s);
    var remaining := s.structures.Keys;
    while remaining != {}
      invariant search.Valid() && search.schema == s && search.visiting == {} && remaining <= s.structures.Keys
      invariant s.structures.Keys - remaining <= search.visited
      decreases remaining
    {
      var key :| key in remaining;
      assert Members<Bytes>([]) == {} && [] + [key] == [key];
      cycle := search.Walk(key, []);
      if cycle.Some? {
        ShownCycle(References(s), cycle.value);
        return cycle;
      }
      remaining := remaining - {key};
    }
    forall k | k in References(s)
      ensures k in search.finished
    {
      assert k in search.visited;
    }
    LayeredIsAcyclic(References(s), search.finished);
    return None;
  }

  // ---- NewSchema ----

  lemma {:induction false} DistinctSnoc(keys: seq<Bytes>, i: nat)
    requires i < |keys|
    ensures AllDistinct(keys[..i + 1]) <==> AllDistinct(keys[..i]) && keys[i] !in keys[..i]
    ensures AllDistinct(keys) ==> AllDistinct(keys[..i + 1])
  {
    assert keys[..i + 1] == keys[..i] + [keys[i]];
    assert keys[..i + 1][i] == keys[i];
    assert forall j :: 0 <= j < i ==> keys[..i + 1][j] == keys[..i][j];
  }

  /** `validateEnumValues`. */
  method CheckEnumValues(values: seq<Option<SelectOption>>) returns (ok: bool)
    ensures ok <==> ValidValues(values)
  {
    ghost var keys := OptionValues(values);
    var seen: set<Bytes> := {};
    for i := 0 to |values|
      invariant seen == Members(keys[..i]) && AllDistinct(keys[..i])
      invariant forall j :: 0 <= j < i ==> ValidOption(values[j])
    {
      DistinctSnoc(keys, i);
      if !ValidOption(values[i]) || values[i].value.value in seen {
        return false;
      }
      assert keys[..i + 1] == keys[..i] + [keys[i]];
      seen := seen + {values[i].value.value};
    }
    assert keys[..|values|] == keys;
    return true;
  }

  /** `validateType`. */
  function CheckType(s: Schema, fieldType: Option<FieldType>): (error: Option<SchemaError>)
    ensures error.None? <==> ResolvedType(s, fieldType)
    ensures error == Some(NilOneof) <==> fieldType.Some? && IsTypedNil(fieldType.value.kind)
  {
    if fieldType.None? || fieldType.value.kind.NoKind? then Some(Invalid)
    else
      match fieldType.value.kind
      case BaseType(payload) =>
        if payload.None? then Some(NilOneof) else if STRING <= payload.value <= FILE then None else Some(Invalid)
      case StructureKey(payload) =>
        if payload.None? then Some(NilOneof) else if payload.value in s.structures then None else Some(Invalid)
      case EnumKey(payload) =>
        if payload.None? then Some(NilOneof) else if payload.value in s.enums then None else Some(Invalid)
  }

  lemma {:induction false} KeysSnoc(keys: seq<Bytes>, i: nat)
    requires i < |keys|
    ensures Members(keys[..i + 1]) == Members(keys[..i]) + {keys[i]}
    ensures keys[i] in keys[..i] <==> keys[i] in Members(keys[..i])
  {
    assert keys[..i + 1] == keys[..i] + [keys[i]];
  }

  lemma {:induction false} NextFieldInOrder(s: Schema, fields: seq<Option<Field>>, i: nat)
    requires i < |fields| && FieldsInOrder(s, fields, i)
    ensures FieldsInOrder(s, fields, i + 1)
       <==> ValidField(s, fields[i]) && FieldKeys(fields)[i] !in FieldKeys(fields)[..i]
  {
    DistinctSnoc(FieldKeys(fields), i);
  }

  lemma {:induction false} EarlierInOrder(s: Schema, fields: seq<Option<Field>>, j: nat, k: nat)
    requires j <= k && FieldsInOrder(s, fields, k)
    ensures FieldsInOrder(s, fields, j)
  {
    assert FieldKeys(fields)[..k][..j] == FieldKeys(fields)[..j];
    DistinctPrefix(FieldKeys(fields)[..k], j);
  }

  /** The first field to fail is the one that decides: a typed nil is met there or nowhere. */
  lemma {:induction false} FirstFailureDecides(s: Schema, fields: seq<Option<Field>>, k: nat)
    requires k < |fields| && FieldsInOrder(s, fields, k) && !FieldsInOrder(s, fields, k + 1)
    ensures !ValidFields(s, fields)
    ensures (exists i: nat :: MeetsTypedNil(s, fields, i)) <==> MeetsTypedNil(s, fields, k)
  {
    assert FieldKeys(fields)[..|fields|] == FieldKeys(fields);
    if ValidFields(s, fields) {
      EarlierInOrder(s, fields, k + 1, |fields|);
    }
    forall i: nat | MeetsTypedNil(s, fields, i)
      ensures i == k
    {
      if i > k {
        EarlierInOrder(s, fields, k + 1, i);
      } else if i < k {
        MetIsNotInOrder(s, fields, i, k);
      }
    }
  }

  lemma {:induction false} MetIsNotInOrder(s: Schema, fields: seq<Option<Field>>, i: nat, k: nat)
    requires MeetsTypedNil(s, fields, i) && i < k
    ensures !FieldsInOrder(s, fields, k)
  {
    assert !ValidField(s, fields[i]);
  }

  lemma {:induction false} MetIsInvalid(s: Schema, fields: seq<Option<Field>>, i: nat)
    requires MeetsTypedNil(s, fields, i)
    ensures !ValidFields(s, fields)
  {
    assert !ValidField(s, fields[i]);
  }

  lemma {:induction false} DistinctPrefix(keys: seq<Bytes>, n: nat)
    requires n <= |keys| && AllDistinct(keys)
    ensures AllDistinct(keys[..n])
  {
  }

  /** `validateStructureFields`. */
  method CheckFields(s: Schema, fields: seq<Option<Field>>) returns (error: Option<SchemaError>)
    ensures error.None? <==> ValidFields(s, fields)
    ensures error == Some(NilOneof) <==> exists i: nat :: MeetsTypedNil(s, fields, i)
    ensures error.Some? ==> error.value.Invalid? || error.value.NilOneof?
  {
    ghost var keys := FieldKeys(fields);
    var seen: set<Bytes> := {};
    for i := 0 to |fields|
      invariant seen == Members(keys[..i]) && FieldsInOrder(s, fields, i)
    {
      NextFieldInOrder(s, fields, i);
      KeysSnoc(keys, i);
      var field := fields[i];
      if field.None? || !ValidTexts(field.value.key, field.value.name, field.value.description)
         || field.value.key in seen {
        FirstFailureDecides(s, fields, i);
        return Some(Invalid);
      }
      seen := seen + {field.value.key};
      var mismatch := CheckType(s, field.value.fieldType);
      if mismatch.Some? {
        FirstFailureDecides(s, fields, i);
        return mismatch;
      }
    }
    assert keys[..|fields|] == keys;
    return None;
  }

  lemma {:induction false} FirstProblemDecides<T>(
      items: seq<Option<T>>, valid: Option<T> -> bool, header: Option<T> -> bool, key: T -> Bytes, i: nat)
    requires i < |items| && InOrder(items, valid, key, i) && !InOrder(items, valid, key, i + 1)
    ensures forall j: nat, k :: RepeatsKey(items, valid, header, key, j, k) ==> j == i
  {
    var keys := KeysOf(items, key);
    forall j: nat, k | RepeatsKey(items, valid, header, key, j, k)
      ensures j == i
    {
      if j > i {
        assert keys[..j][..i + 1] == keys[..i + 1];
        DistinctPrefix(keys[..j], i + 1);
      }
    }
  }

  lemma {:induction false} NoProblem<T>(
      items: seq<Option<T>>, valid: Option<T> -> bool, header: Option<T> -> bool, key: T -> Bytes)
    requires InOrder(items, valid, key, |items|)
    ensures forall j: nat, k :: !RepeatsKey(items, valid, header, key, j, k)
  {
    var keys := KeysOf(items, key);
    assert keys[..|items|] == keys;
  }

  lemma {:induction false} NextInOrder<T>(
      items: seq<Option<T>>, valid: Option<T> -> bool, key: T -> Bytes, i: nat)
    requires i < |items| && InOrder(items, valid, key, i)
    ensures InOrder(items, valid, key, i + 1) <==> valid(items[i]) && KeysOf(items, key)[i] !in KeysOf(items, key)[..i]
  {
    DistinctSnoc(KeysOf(items, key), i);
  }

  /** The first loop of `NewSchema`. */
  method CollectStructures(items: seq<Option<Structure>>) returns (r: Result<map<Bytes, Structure>>)
    ensures r.Ok? <==> (forall i :: 0 <= i < |items| ==> ValidHeader(items[i])) && AllDistinct(StructureKeys(items))
    ensures r.Ok? ==> IsIndex(r.value, items, StructureKeyOf)
    ensures r.Err? ==> r.error.Invalid? || r.error.DuplicateKey?
    ensures forall k :: r == Err(DuplicateKey(k)) <==> exists i: nat :: StructureRepeats(items, i, k)
  {
    ghost var keys := StructureKeys(items);
    assert keys[..|items|] == keys && items[..|items|] == items;
    var found: map<Bytes, Structure> := map[];
    for i := 0 to |items|
      invariant InOrder(items, ValidHeader, StructureKeyOf, i) && IsIndex(found, items[..i], StructureKeyOf)
    {
      NextInOrder(items, ValidHeader, StructureKeyOf, i);
      if !ValidHeader(items[i]) {
        StructureRefused(items, i);
        return Err(Invalid);
      }
      var item := items[i].value;
      IndexNext(found, items, StructureKeyOf, i);
      if item.key in found {
        StructureRefused(items, i);
        assert StructureRepeats(items, i, item.key);
        return Err(DuplicateKey(item.key));
      }
      found := found[item.key := item];
    }
    NoProblem(items, ValidHeader, ValidHeader, StructureKeyOf);
    assert forall i: nat, k :: !StructureRepeats(items, i, k);
    return Ok(found);
  }

  lemma {:induction false} StructureRefused(items: seq<Option<Structure>>, i: nat)
    requires i < |items| && InOrder(items, ValidHeader, StructureKeyOf, i)
    requires !InOrder(items, ValidHeader, StructureKeyOf, i + 1)
    ensures !((forall j :: 0 <= j < |items| ==> ValidHeader(items[j])) && AllDistinct(StructureKeys(items)))
    ensures forall j: nat, k :: StructureRepeats(items, j, k) ==> j == i
  {
    FirstProblemDecides(items, ValidHeader, ValidHeader, StructureKeyOf, i);
    if AllDistinct(StructureKeys(items)) {
      DistinctPrefix(StructureKeys(items), i + 1);
    }
  }

  /** One more item: its key is in the map exactly if an earlier item has it, and otherwise the index grows by it. */
  lemma {:induction false} IndexNext<T>(m: map<Bytes, T>, items: seq<Option<T>>, key: T -> Bytes, i: nat)
    requires i < |items| && items[i].Some? && IsIndex(m, items[..i], key)
    ensures key(items[i].value) in m <==> key(items[i].value) in KeysOf(items, key)[..i]
    ensures key(items[i].value) !in m ==> IsIndex(m[key(items[i].value) := items[i].value], items[..i + 1], key)
  {
    var keys, k := KeysOf(items, key), key(items[i].value);
    var before, after := items[..i], items[..i + 1];
    assert KeysOf(before, key) == keys[..i];
    assert KeysOf(after, key) == keys[..i] + [k];
    if k in keys[..i] {
      var j :| 0 <= j < i && keys[j] == k;
      assert before[j].Some?;
    }
    if k !in m {
      var more := m[k := items[i].value];
      forall j | 0 <= j < |after|
        ensures after[j].Some? && key(after[j].value) in more && more[key(after[j].value)] == after[j].value
      {
        if j < i {
          assert after[j] == before[j];
        }
      }
    }
  }

  /** The second loop of `NewSchema`. */
  method CollectEnums(items: seq<Option<ConfigEnum>>) returns (r: Result<map<Bytes, ConfigEnum>>)
    ensures r.Ok? <==> (forall i :: 0 <= i < |items| ==> ValidEnum(items[i])) && AllDistinct(EnumKeys(items))
    ensures r.Ok? ==> IsIndex(r.value, items, EnumKeyOf)
    ensures r.Err? ==> r.error.Invalid? || r.error.DuplicateKey?
    ensures forall k :: r == Err(DuplicateKey(k)) <==> exists i: nat :: EnumRepeats(items, i, k)
  {
    ghost var keys := EnumKeys(items);
    assert keys[..|items|] == keys && items[..|items|] == items;
    var found: map<Bytes, ConfigEnum> := map[];
    for i := 0 to |items|
      invariant InOrder(items, ValidEnum, EnumKeyOf, i) && IsIndex(found, items[..i], EnumKeyOf)
    {
      NextInOrder(items, ValidEnum, EnumKeyOf, i);
      if items[i].None? || !ValidTexts(items[i].value.key, items[i].value.name, items[i].value.description)
         || items[i].value.values == [] {
        EnumRefused(items, i);
        return Err(Invalid);
      }
      var item := items[i].value;
      IndexNext(found, items, EnumKeyOf, i);
      if item.key in found {
        EnumRefused(items, i);
        assert EnumRepeats(items, i, item.key);
        return Err(DuplicateKey(item.key));
      }
      var ok := CheckEnumValues(item.values);
      if !ok {
        EnumRefused(items, i);
        return Err(Invalid);
      }
      found := found[item.key := item];
    }
    NoProblem(items, ValidEnum, ValidEnumHeader, EnumKeyOf);
    assert forall i: nat, k :: !EnumRepeats(items, i, k);
    return Ok(found);
  }

  lemma {:induction false} EnumRefused(items: seq<Option<ConfigEnum>>, i: nat)
    requires i < |items| && InOrder(items, ValidEnum, EnumKeyOf, i)
    requires !InOrder(items, ValidEnum, EnumKeyOf, i + 1)
    ensures !((forall j :: 0 <= j < |items| ==> ValidEnum(items[j])) && AllDistinct(EnumKeys(items)))
    ensures forall j: nat, k :: EnumRepeats(items, j, k) ==> j == i
  {
    FirstProblemDecides(items, ValidEnum, ValidEnumHeader, EnumKeyOf, i);
    if AllDistinct(EnumKeys(items)) {
      DistinctPrefix(EnumKeys(items), i + 1);
    }
  }

  lemma {:induction false} SameIndex<T>(m: map<Bytes, T>, n: map<Bytes, T>, items: seq<Option<T>>, key: T -> Bytes)
    requires IsIndex(m, items, key) && IsIndex(n, items, key)
    ensures m == n
  {
    forall k | k in m || k in n
      ensures k in m && k in n && m[k] == n[k]
    {
      var i :| 0 <= i < |items| && KeysOf(items, key)[i] == k;
      assert items[i].Some?;
    }
  }

  lemma {:induction false} IndexUnique(
      s: Schema, t: Schema, structures: seq<Option<Structure>>, enums: seq<Option<ConfigEnum>>)
    requires Indexes(s, structures, enums) && Indexes(t, structures, enums)
    ensures s == t
  {
    SameIndex(s.structures, t.structures, structures, StructureKeyOf);
    SameIndex(s.enums, t.enums, enums, EnumKeyOf);
  }

  /** What the rest of the domain layer relies on: definitions that were accepted are resolved. */
  lemma {:induction false} IndexedIsResolved(
      s: Schema, structures: seq<Option<Structure>>, enums: seq<Option<ConfigEnum>>)
    requires Indexes(s, structures, enums)
    requires forall i :: 0 <= i < |structures| ==>
               ValidHeader(structures[i]) && ValidFields(s, structures[i].value.fields)
    requires forall i :: 0 <= i < |enums| ==> ValidEnum(enums[i])
    ensures Resolved(s)
  {
    forall k | k in s.structures
      ensures s.structures[k].key == k && k != [] && ValidFields(s, s.structures[k].fields)
    {
      var i :| 0 <= i < |structures| && StructureKeys(structures)[i] == k;
      assert structures[i].Some? && ValidHeader(structures[i]);
    }
    forall k | k in s.enums
      ensures ValidEnum(Some(s.enums[k]))
    {
      var i :| 0 <= i < |enums| && EnumKeys(enums)[i] == k;
      assert enums[i].Some? && ValidEnum(enums[i]);
    }
  }

  /** The third loop of `NewSchema`. */
  method CheckStructures(s: Schema, structures: seq<Option<Structure>>) returns (error: Option<SchemaError>)
    requires forall j :: 0 <= j < |structures| ==> structures[j].Some?
    ensures error.None? <==> forall j :: 0 <= j < |structures| ==> ValidFields(s, structures[j].value.fields)
    ensures error == Some(NilOneof) <==> exists k: nat, i: nat :: FirstMeetsTypedNil(s, structures, k, i)
    ensures error.Some? ==> error.value.Invalid? || error.value.NilOneof?
  {
    for k := 0 to |structures|
      invariant forall j :: 0 <= j < k ==> ValidFields(s, structures[j].value.fields)
    {
      error := CheckFields(s, structures[k].value.fields);
      if error.Some? {
        FirstStructureDecides(s, structures, k);
        return error;
      }
    }
    forall k: nat, i: nat | FirstMeetsTypedNil(s, structures, k, i)
      ensures false
    {
      MetIsInvalid(s, structures[k].value.fields, i);
    }
    return None;
  }

  lemma {:induction false} FirstStructureDecides(s: Schema, structures: seq<Option<Structure>>, k: nat)
    requires forall j :: 0 <= j < |structures| ==> structures[j].Some?
    requires k < |structures| && !ValidFields(s, structures[k].value.fields)
    requires forall j :: 0 <= j < k ==> ValidFields(s, structures[j].value.fields)
    ensures (exists l: nat, i: nat :: FirstMeetsTypedNil(s, structures, l, i))
       <==> exists i: nat :: MeetsTypedNil(s, structures[k].value.fields, i)
  {
    forall l: nat, i: nat | FirstMeetsTypedNil(s, structures, l, i)
      ensures l == k
    {
      MetIsInvalid(s, structures[l].value.fields, i);
    }
    if i: nat :| MeetsTypedNil(s, structures[k].value.fields, i) {
      assert FirstMeetsTypedNil(s, structures, k, i);
    }
  }

  lemma {:induction false} Refused(structures: seq<Option<Structure>>, enums: seq<Option<ConfigEnum>>, schema: Schema)
    requires Indexes(schema, structures, enums) && !Defines(structures, enums, schema)
    ensures forall s :: !Defines(structures, enums, s)
  {
    forall s | Indexes(s, structures, enums)
      ensures s == schema
    {
      IndexUnique(s, schema, structures, enums);
    }
  }

  lemma {:induction false} ReadsInThisSchema(
      structures: seq<Option<Structure>>, enums: seq<Option<ConfigEnum>>, schema: Schema)
    requires Indexes(schema, structures, enums)
    requires DefinitionsInOrder(structures, enums)
    ensures (exists s, k: nat, i: nat :: ReadsTypedNil(structures, enums, s, k, i))
       <==> exists k: nat, i: nat :: FirstMeetsTypedNil(schema, structures, k, i)
  {
    forall s, k: nat, i: nat | ReadsTypedNil(structures, enums, s, k, i)
      ensures s == schema
    {
      IndexUnique(s, schema, structures, enums);
    }
    if k: nat, i: nat :| FirstMeetsTypedNil(schema, structures, k, i) {
      assert ReadsTypedNil(structures, enums, schema, k, i);
    }
  }

  /** The first thing wrong is a key that repeats: among the structures, or, these being in order, among the enums. */
  ghost predicate RepeatedKey(structures: seq<Option<Structure>>, enums: seq<Option<ConfigEnum>>, k: Bytes) {
    || (exists i: nat :: StructureRepeats(structures, i, k))
    || ((forall j :: 0 <= j < |structures| ==> ValidHeader(structures[j])) && AllDistinct(StructureKeys(structures))
        && exists i: nat :: EnumRepeats(enums, i, k))
  }

  /** The first two loops of `NewSchema` together. */
  method CollectDefinitions(structures: seq<Option<Structure>>, enums: seq<Option<ConfigEnum>>)
    returns (r: Result<Schema>)
    ensures r.Ok? <==> DefinitionsInOrder(structures, enums)
    ensures r.Ok? ==> Indexes(r.value, structures, enums)
    ensures r.Err? ==> r.error.Invalid? || r.error.DuplicateKey?
    ensures forall k :: r == Err(DuplicateKey(k)) <==> RepeatedKey(structures, enums, k)
  {
    var collected := CollectStructures(structures);
    if collected.Err? {
      return Err(collected.error);
    }
    var options := CollectEnums(enums);
    if options.Err? {
      return Err(options.error);
    }
    return Ok(Schema(collected.value, options.value));
  }

  /**
   * Definitions are accepted exactly when they make a schema, and the schema is then the one they make. A reported
   * cycle is a real one, and a typed-nil oneof is read exactly when it is the first thing wrong after headers and
   * enums, and a key conflict when that is the first thing wrong. Any other refusal is for invalid input.
   */
  method NewSchema(structures: seq<Option<Structure>>, enums: seq<Option<ConfigEnum>>) returns (r: Result<Schema>)
    ensures r.Ok? ==> Defines(structures, enums, r.value) && Resolved(r.value)
    ensures r.Err? ==> forall s :: !Defines(structures, enums, s)
    ensures r.Err? && r.error.Cycle? ==>
              exists s :: Indexes(s, structures, enums) && ShowsCycle(References(s), r.error.path)
    ensures r == Err(NilOneof) <==> exists s, k: nat, i: nat :: ReadsTypedNil(structures, enums, s, k, i)
    ensures forall k :: r == Err(DuplicateKey(k)) <==> RepeatedKey(structures, enums, k)
  {
    var collected := CollectDefinitions(structures, enums);
    if collected.Err? {
      return collected;
    }
    var schema := collected.value;
    ReadsInThisSchema(structures, enums, schema);
    var error := CheckStructures(schema, structures);
    if error.Some? {
      Refused(structures, enums, schema);
      return Err(error.value);
    }
    IndexedIsResolved(schema, structures, enums);
    var cycle := ValidateCycles(schema);
    if cycle.Some? {
      Refused(structures, enums, schema);
      return Err(Cycle(cycle.value));
    }
    return Ok(schema);
  }
}
