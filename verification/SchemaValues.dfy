/** `Schema.ValidateConfig` and `Schema.DefaultValue`: JSON values against the definitions of a schema. */
module SchemaValues {
  import opened Foundation
  import opened Decimal
  import opened Messages
  import opened Graphs
  import opened Requests
  import opened Utf8
  import opened Schemas
  import opened SchemaTree
  import opened KeySets

  /** A decoded JSON value; a number keeps its text. */
  datatype Json =
    | Null
    | Bool(b: bool)
    | Number(text: string)
    | Text(s: Bytes)
    | Array(items: seq<Json>)
    | Object(members: map<Bytes, Json>)

  datatype Layout = DateLayout | TimeLayout | DateTimeLayout

  /** The library parsers: does `ParseFloat` accept the number, does `time.Parse` accept the text for the layout? */
  datatype Parsers = Parsers(float: string -> bool, time: (Layout, Bytes) -> bool)

  // ---- What it means for a value to match a type ----

  /** `strconv.ParseInt(text, 10, 64)` on the text of a JSON number. */
  predicate Int64Text(text: string) {
    var negative := text != "" && text[0] == '-';
    var digits := if negative || (text != "" && text[0] == '+') then text[1..] else text;
    digits != "" && (forall i :: 0 <= i < |digits| ==> IsDigit(digits[i]))
    && Parse(digits) <= if negative then MAX_INT64 + 1 else MAX_INT64
  }

  predicate IsTime(ps: Parsers, layout: Layout, v: Json) {
    v.Text? && ps.time(layout, v.s)
  }

  predicate IsRange(ps: Parsers, layout: Layout, v: Json) {
    v.Array? && |v.items| == 2 && IsTime(ps, layout, v.items[0]) && IsTime(ps, layout, v.items[1])
  }

  /** `validateBaseValue`. */
  predicate ConformsBase(ps: Parsers, baseType: int, v: Json) {
    if baseType in {STRING, IMAGE, VIDEO, FILE} then v.Text?
    else if baseType == INT then v.Number? && Int64Text(v.text)
    else if baseType == DECIMAL then v.Number? && ps.float(v.text)
    else if baseType == BOOLEAN then v.Bool?
    else if baseType == DATE then IsTime(ps, DateLayout, v)
    else if baseType == TIME then IsTime(ps, TimeLayout, v)
    else if baseType == DATETIME then IsTime(ps, DateTimeLayout, v)
    else if baseType == DATE_RANGE then IsRange(ps, DateLayout, v)
    else if baseType == TIME_RANGE then IsRange(ps, TimeLayout, v)
    else if baseType == DATETIME_RANGE then IsRange(ps, DateTimeLayout, v)
    else false
  }

  /** A value matches a type: element by element for an array, and for a structure with exactly its field names. */
  predicate Conforms(s: Schema, ps: Parsers, fieldType: Option<FieldType>, isArray: bool, v: Json)
    decreases v, if isArray then 1 else 0
  {
    if isArray then
      v.Array? && forall i :: 0 <= i < |v.items| ==> Conforms(s, ps, fieldType, false, v.items[i])
    else if fieldType.None? then
      false
    else
      match fieldType.value.kind
      case BaseType(Some(b)) => ConformsBase(ps, b, v)
      case EnumKey(Some(key)) => key in s.enums && v.Text? && v.s in OptionValues(s.enums[key].values)
      case StructureKey(Some(key)) =>
        key in s.structures && v.Object?
        && var fields := s.structures[key].fields;
           v.members.Keys == Members(FieldKeys(fields))
           && forall i :: 0 <= i < |fields| && fields[i].Some? ==>
                fields[i].value.key in v.members
                && Conforms(s, ps, fields[i].value.fieldType, fields[i].value.isArray, v.members[fields[i].value.key])
      case _ => false
  }

  /** The member named by the field is there and conforms to it. */
  predicate FieldConforms(s: Schema, ps: Parsers, field: Option<Field>, members: map<Bytes, Json>) {
    field.Some? && field.value.key in members
    && Conforms(s, ps, field.value.fieldType, field.value.isArray, members[field.value.key])
  }

  predicate FieldsConform(s: Schema, ps: Parsers, fields: seq<Option<Field>>, n: nat, members: map<Bytes, Json>) {
    n <= |fields| && forall i :: 0 <= i < n ==> FieldConforms(s, ps, fields[i], members)
  }

  // ---- The check ----

  lemma {:induction false} DistinctCardinality(keys: seq<Bytes>)
    requires AllDistinct(keys)
    ensures |Members(keys)| == |keys|
  {
    if keys != [] {
      var last := |keys| - 1;
      DistinctSnoc(keys, last);
      assert keys[..last + 1] == keys == keys[..last] + [keys[last]];
      DistinctCardinality(keys[..last]);
      assert Members(keys) == Members(keys[..last]) + {keys[last]};
    }
  }

  lemma {:induction false} SubsetOfSameSize(a: set<Bytes>, b: set<Bytes>)
    requires a <= b && |a| == |b|
    ensures a == b
  {
    assert |b - a| == |b| - |a|;
    assert b == a + (b - a);
  }

  /** Counting the members and finding every field is enough: there can be no member that is not a field. */
  lemma {:induction false} SameSizeSameKeys(fields: seq<Option<Field>>, members: map<Bytes, Json>)
    requires AllDistinct(FieldKeys(fields)) && Members(FieldKeys(fields)) <= members.Keys
    ensures |members| == |fields| <==> members.Keys == Members(FieldKeys(fields))
  {
    DistinctCardinality(FieldKeys(fields));
    assert |members| == |members.Keys|;
    if |members| == |fields| {
      SubsetOfSameSize(Members(FieldKeys(fields)), members.Keys);
    }
  }

  /**
   * `validateValue` with its helpers for arrays, enums and structures. Without cycles it accepts exactly the values
   * that conform; the set of structures it is inside of is left as it was found.
   */
  method ValidateValue(
      s: Schema, ps: Parsers, fieldType: Option<FieldType>, isArray: bool, v: Json,
      structures: KeySet, ghost trail: seq<Bytes>)
    returns (error: Option<SchemaError>)
    requires Resolved(s) && ResolvedType(s, fieldType)
    requires structures.values == Members(trail) && Leads(s, trail, fieldType)
    modifies structures
    ensures structures.values == old(structures.values)
    ensures error.None? ==> Conforms(s, ps, fieldType, isArray, v)
    ensures error.Some? && Conforms(s, ps, fieldType, isArray, v) ==> !Acyclic(References(s))
    decreases v, if isArray then 3 else 2
  {
    if isArray {
      if !v.Array? {
        return Some(Invalid);
      }
      for i := 0 to |v.items|
        invariant structures.values == old(structures.values)
        invariant forall j :: 0 <= j < i ==> Conforms(s, ps, fieldType, false, v.items[j])
      {
        error := ValidateValue(s, ps, fieldType, false, v.items[i], structures, trail);
        if error.Some? {
          return error;
        }
      }
      return None;
    }
    match fieldType.value.kind {
      case BaseType(b) =>
        return if ConformsBase(ps, b.value, v) then None else Some(Invalid);
      case EnumKey(key) =>
        if !v.Text? {
          return Some(Invalid);
        }
        var known := KnownValue(s.enums[key.value].values, v.s);
        return if known then None else Some(Invalid);
      case StructureKey(key) =>
        error := ValidateStructure(s, ps, key.value, v, structures, trail);
    }
  }

  method KnownValue(values: seq<Option<SelectOption>>, text: Bytes) returns (known: bool)
    requires forall i :: 0 <= i < |values| ==> values[i].Some?
    ensures known <==> text in OptionValues(values)
  {
    for i := 0 to |values|
      invariant forall j :: 0 <= j < i ==> OptionValues(values)[j] != text
    {
      assert OptionValues(values)[i] == values[i].value.value;
      if values[i].value.value == text {
        return true;
      }
    }
    return false;
  }

  /** An object conforms when its names are the field names and every field finds its own value. */
  lemma {:induction false} StructureConforms(s: Schema, ps: Parsers, key: Bytes, v: Json)
    requires Resolved(s) && key in s.structures
    ensures var fields := s.structures[key].fields;
            Conforms(s, ps, Some(FieldType(StructureKey(Some(key)))), false, v)
            <==> && v.Object? && v.members.Keys == Members(FieldKeys(fields))
                 && forall i :: 0 <= i < |fields| ==> FieldConforms(s, ps, fields[i], v.members)
  {
    var fields := s.structures[key].fields;
    assert forall i :: 0 <= i < |fields| ==> ValidField(s, fields[i]);
  }

  /** `validateStructureValue`. */
  method ValidateStructure(
      s: Schema, ps: Parsers, key: Bytes, v: Json, structures: KeySet, ghost trail: seq<Bytes>)
    returns (error: Option<SchemaError>)
    requires Resolved(s) && key in s.structures
    requires structures.values == Members(trail) && IsWalk(References(s), trail + [key])
    modifies structures
    ensures structures.values == old(structures.values)
    ensures var fieldType := Some(FieldType(StructureKey(Some(key))));
            && (error.None? ==> Conforms(s, ps, fieldType, false, v))
            && (error.Some? && Conforms(s, ps, fieldType, false, v) ==> !Acyclic(References(s)))
    decreases v, 1
  {
    StructureConforms(s, ps, key, v);
    if !v.Object? {
      return Some(Invalid);
    }
    if structures.Contains(key) {
      assert (trail + [key])[..|trail|] == trail;
      ShownCycle(References(s), trail + [key]);
      return Some(Cycle([key]));
    }
    structures.Add(key);
    var fields := s.structures[key].fields;
    assert AllDistinct(FieldKeys(fields));
    if |v.members| != |fields| {
      if v.members.Keys == Members(FieldKeys(fields)) {
        SameSizeSameKeys(fields, v.members);
      }
      structures.Remove(key);
      return Some(Invalid);
    }
    error := ValidateFields(s, ps, key, v, structures, trail + [key]);
    structures.Remove(key);
    if error.None? {
      AllFieldsPresent(s, ps, fields, v.members);
      SameSizeSameKeys(fields, v.members);
    }
  }

  lemma {:induction false} AllFieldsPresent(
      s: Schema, ps: Parsers, fields: seq<Option<Field>>, members: map<Bytes, Json>)
    requires forall i :: 0 <= i < |fields| ==> FieldConforms(s, ps, fields[i], members)
    ensures Members(FieldKeys(fields)) <= members.Keys
  {
    forall k | k in Members(FieldKeys(fields))
      ensures k in members.Keys
    {
      var i :| 0 <= i < |fields| && FieldKeys(fields)[i] == k;
      assert FieldConforms(s, ps, fields[i], members);
    }
  }

  /** The field loop of `validateStructureValue`. */
  method ValidateFields(
      s: Schema, ps: Parsers, key: Bytes, v: Json, structures: KeySet, ghost trail: seq<Bytes>)
    returns (error: Option<SchemaError>)
    requires Resolved(s) && key in s.structures && v.Object?
    requires structures.values == Members(trail) && IsWalk(References(s), trail) && trail[|trail| - 1] == key
    modifies structures
    ensures structures.values == old(structures.values)
    ensures var fields := s.structures[key].fields;
            if error.None? then FieldsConform(s, ps, fields, |fields|, v.members)
            else !Acyclic(References(s)) || !FieldsConform(s, ps, fields, |fields|, v.members)
    decreases v, 0
  {
    var fields := s.structures[key].fields;
    assert trail == trail[..|trail| - 1] + [key];
    for i := 0 to |fields|
      invariant structures.values == old(structures.values)
      invariant FieldsConform(s, ps, fields, i, v.members)
    {
      assert ValidField(s, fields[i]);
      var child := fields[i].value;
      if child.key !in v.members {
        assert !FieldConforms(s, ps, fields[i], v.members);
        return Some(Invalid);
      }
      StepLeads(s, trail[..|trail| - 1], key, i);
      error := ValidateValue(s, ps, child.fieldType, child.isArray, v.members[child.key], structures, trail);
      if error.Some? {
        return error;
      }
    }
    return None;
  }

  /** `ValidateConfig`, given what decoding the stored text yields: a config passes exactly when its value conforms. */
  method ValidateConfig(s: Schema, ps: Parsers, config: Option<Config>, decoded: Option<Json>)
    returns (error: Option<SchemaError>)
    requires Resolved(s)
    ensures Acyclic(References(s)) ==>
              (error.None? <==>
                && config.Some? && ValidKey(config.value.key) && ResolvedType(s, config.value.fieldType)
                && decoded.Some? && Conforms(s, ps, config.value.fieldType, config.value.isArray, decoded.value))
  {
    if config.None? || config.value.fieldType.None? || !ValidKey(config.value.key) {
      return Some(Invalid);
    }
    error := CheckType(s, config.value.fieldType);
    if error.Some? {
      return error;
    }
    if decoded.None? {
      return Some(Invalid);
    }
    var structures := new KeySet();
    StartLeads(s, config.value.fieldType);
    error := ValidateValue(s, ps, config.value.fieldType, config.value.isArray, decoded.value, structures, []);
  }

  // ---- The default ----

  predicate IsDefaultBase(baseType: int, v: Json) {
    if baseType in {INT, DECIMAL} then v == Number("0")
    else if baseType == BOOLEAN then v == Bool(false)
    else if baseType in {TIME_RANGE, DATE_RANGE, DATETIME_RANGE} then v == Array([])
    else v == Text([])
  }

  /** The value an editor starts from: empty arrays, zero, false, empty text, the first option, and all fields. */
  predicate IsDefault(s: Schema, fieldType: Option<FieldType>, isArray: bool, v: Json)
    decreases v
  {
    if isArray then
      v == Array([])
    else if fieldType.None? then
      false
    else
      match fieldType.value.kind
      case BaseType(Some(b)) => IsDefaultBase(b, v)
      case EnumKey(Some(key)) =>
        key in s.enums && s.enums[key].values != [] && v == Text(OptionValues(s.enums[key].values)[0])
      case StructureKey(Some(key)) =>
        key in s.structures && v.Object?
        && var fields := s.structures[key].fields;
           v.members.Keys == Members(FieldKeys(fields))
           && forall i :: 0 <= i < |fields| && fields[i].Some? ==>
                fields[i].value.key in v.members
                && IsDefault(s, fields[i].value.fieldType, fields[i].value.isArray, v.members[fields[i].value.key])
      case _ => false
  }

  predicate FieldIsDefault(s: Schema, field: Option<Field>, members: map<Bytes, Json>) {
    field.Some? && field.value.key in members
    && IsDefault(s, field.value.fieldType, field.value.isArray, members[field.value.key])
  }

  /** The members so far are the defaults of the first fields. */
  predicate DefaultsUpTo(s: Schema, fields: seq<Option<Field>>, n: nat, members: map<Bytes, Json>) {
    n <= |fields| && members.Keys == Members(FieldKeys(fields)[..n])
    && forall j :: 0 <= j < n ==> FieldIsDefault(s, fields[j], members)
  }

  function DefaultBase(baseType: int): (v: Json)
    ensures IsDefaultBase(baseType, v)
  {
    if baseType == INT || baseType == DECIMAL then Number("0")
    else if baseType == BOOLEAN then Bool(false)
    else if baseType == TIME_RANGE || baseType == DATE_RANGE || baseType == DATETIME_RANGE then Array([])
    else Text([])
  }

  /** `defaultValue` and `defaultStructureValue`: without cycles a resolved type always has its default. */
  method DefaultValue(
      s: Schema, fieldType: Option<FieldType>, isArray: bool, structures: KeySet, ghost trail: seq<Bytes>)
    returns (r: Result<Json>)
    requires Resolved(s) && ResolvedType(s, fieldType)
    requires structures.values == Members(trail) && Leads(s, trail, fieldType)
    modifies structures
    ensures structures.values == old(structures.values)
    ensures r.Ok? ==> IsDefault(s, fieldType, isArray, r.value)
    ensures r.Err? ==> !Acyclic(References(s))
    decreases s.structures.Keys - structures.values, 1
  {
    if isArray {
      return Ok(Array([]));
    }
    match fieldType.value.kind {
      case BaseType(b) =>
        return Ok(DefaultBase(b.value));
      case EnumKey(key) =>
        assert ValidEnum(Some(s.enums[key.value]));
        assert ValidOption(s.enums[key.value].values[0]);
        return Ok(Text(s.enums[key.value].values[0].value.value));
      case StructureKey(key) =>
        r := DefaultStructure(s, key.value, structures, trail);
    }
  }

  /** `defaultStructureValue`. */
  method DefaultStructure(s: Schema, key: Bytes, structures: KeySet, ghost trail: seq<Bytes>) returns (r: Result<Json>)
    requires Resolved(s) && key in s.structures
    requires structures.values == Members(trail) && IsWalk(References(s), trail + [key])
    modifies structures
    ensures structures.values == old(structures.values)
    ensures r.Ok? ==> IsDefault(s, Some(FieldType(StructureKey(Some(key)))), false, r.value)
    ensures r.Err? ==> !Acyclic(References(s))
    decreases s.structures.Keys - structures.values, 0
  {
    if structures.Contains(key) {
      assert (trail + [key])[..|trail|] == trail;
      ShownCycle(References(s), trail + [key]);
      return Err(Cycle([key]));
    }
    structures.Add(key);
    var fields := s.structures[key].fields;
    var members: map<Bytes, Json> := map[];
    for i := 0 to |fields|
      invariant structures.values == old(structures.values) + {key} == Members(trail + [key])
      invariant DefaultsUpTo(s, fields, i, members)
    {
      assert ValidField(s, fields[i]);
      var child := fields[i].value;
      StepLeads(s, trail, key, i);
      var value := DefaultValue(s, child.fieldType, child.isArray, structures, trail + [key]);
      if value.Err? {
        structures.Remove(key);
        return value;
      }
      AddDefault(s, fields, i, members, value.value);
      members := members[child.key := value.value];
    }
    AllDefaults(s, key, members);
    structures.Remove(key);
    return Ok(Object(members));
  }

  /** A new member under a key of its own leaves the fields that are done as they are. */
  lemma {:induction false} OthersStayDefault(
      s: Schema, fields: seq<Option<Field>>, i: nat, members: map<Bytes, Json>, v: Json)
    requires i < |fields| && AllDistinct(FieldKeys(fields)) && fields[i].Some?
    requires forall j :: 0 <= j < i ==> FieldIsDefault(s, fields[j], members)
    ensures forall j :: 0 <= j < i ==> FieldIsDefault(s, fields[j], members[fields[i].value.key := v])
  {
    var keys := FieldKeys(fields);
    forall j | 0 <= j < i
      ensures FieldIsDefault(s, fields[j], members[keys[i] := v])
    {
      assert FieldIsDefault(s, fields[j], members) && keys[j] != keys[i];
    }
  }

  lemma {:induction false} AddKey(fields: seq<Option<Field>>, i: nat, members: map<Bytes, Json>, v: Json)
    requires i < |fields| && fields[i].Some? && members.Keys == Members(FieldKeys(fields)[..i])
    ensures members[fields[i].value.key := v].Keys == Members(FieldKeys(fields)[..i + 1])
  {
    var keys := FieldKeys(fields);
    assert keys[..i + 1] == keys[..i] + [keys[i]];
  }

  lemma {:induction false} AddDefault(
      s: Schema, fields: seq<Option<Field>>, i: nat, members: map<Bytes, Json>, v: Json)
    requires i < |fields| && AllDistinct(FieldKeys(fields)) && fields[i].Some?
    requires IsDefault(s, fields[i].value.fieldType, fields[i].value.isArray, v)
    requires DefaultsUpTo(s, fields, i, members)
    ensures DefaultsUpTo(s, fields, i + 1, members[fields[i].value.key := v])
  {
    AddKey(fields, i, members, v);
    OthersStayDefault(s, fields, i, members, v);
    assert FieldIsDefault(s, fields[i], members[fields[i].value.key := v]);
  }

  lemma {:induction false} AllDefaults(s: Schema, key: Bytes, members: map<Bytes, Json>)
    requires key in s.structures && DefaultsUpTo(s, s.structures[key].fields, |s.structures[key].fields|, members)
    ensures IsDefault(s, Some(FieldType(StructureKey(Some(key)))), false, Object(members))
  {
    var fields := s.structures[key].fields;
    assert FieldKeys(fields)[..|fields|] == FieldKeys(fields);
    assert forall i :: 0 <= i < |fields| ==> FieldIsDefault(s, fields[i], members);
  }

  // ---- When is the default itself acceptable? ----

  /** Facts about the library parsers: zero is a number, and no date or time is empty. */
  ghost predicate Standard(ps: Parsers) {
    ps.float("0") && forall layout :: !ps.time(layout, [])
  }

  predicate Temporal(fieldType: Option<FieldType>) {
    fieldType.Some? && fieldType.value.kind.BaseType? && fieldType.value.kind.baseType.Some?
    && TIME <= fieldType.value.kind.baseType.value <= DATETIME_RANGE
  }

  /** Following field positions through structures, never through an array, ends at a single date or time. */
  predicate NeedsInput(s: Schema, fieldType: Option<FieldType>, isArray: bool, path: seq<nat>)
    decreases path
  {
    if isArray then false
    else if path == [] then Temporal(fieldType)
    else
      var key := TypeReference(fieldType);
      key in s.structures && path[0] < |s.structures[key].fields| && s.structures[key].fields[path[0]].Some?
      && var field := s.structures[key].fields[path[0]].value;
         NeedsInput(s, field.fieldType, field.isArray, path[1..])
  }

  ghost predicate NeedsSomeInput(s: Schema, fieldType: Option<FieldType>, isArray: bool) {
    exists path :: NeedsInput(s, fieldType, isArray, path)
  }

  ghost predicate FieldNeedsInput(s: Schema, field: Option<Field>) {
    field.Some? && NeedsSomeInput(s, field.value.fieldType, field.value.isArray)
  }

  lemma {:induction false} DefaultBaseConforms(ps: Parsers, baseType: int, v: Json)
    requires Standard(ps) && STRING <= baseType <= FILE && IsDefaultBase(baseType, v)
    ensures ConformsBase(ps, baseType, v) <==> !(TIME <= baseType <= DATETIME_RANGE)
  {
    assert "0"[..0] == "";
    assert Parse("0") == 0;
  }

  /** A default passes validation exactly when no single date, time or range can be reached outside an array. */
  lemma {:induction false} DefaultConforms(s: Schema, ps: Parsers, fieldType: Option<FieldType>, isArray: bool, v: Json)
    requires Standard(ps) && Resolved(s) && ResolvedType(s, fieldType) && IsDefault(s, fieldType, isArray, v)
    ensures Conforms(s, ps, fieldType, isArray, v) <==> !NeedsSomeInput(s, fieldType, isArray)
    decreases v, 1
  {
    if !isArray {
      match fieldType.value.kind
      case BaseType(b) =>
        DefaultBaseConforms(ps, b.value, v);
        LeafNeedsInput(s, fieldType);
      case EnumKey(_) =>
        LeafNeedsInput(s, fieldType);
      case StructureKey(payload) =>
        DefaultStructureConforms(s, ps, payload.value, v);
        StructureNeedsInput(s, fieldType);
    }
  }

  lemma {:induction false} DefaultStructureConforms(s: Schema, ps: Parsers, key: Bytes, v: Json)
    requires Standard(ps) && Resolved(s) && key in s.structures
    requires IsDefault(s, Some(FieldType(StructureKey(Some(key)))), false, v)
    ensures var fields := s.structures[key].fields;
            Conforms(s, ps, Some(FieldType(StructureKey(Some(key)))), false, v)
            <==> forall i :: 0 <= i < |fields| ==> !FieldNeedsInput(s, fields[i])
    decreases v, 0
  {
    var fields := s.structures[key].fields;
    forall i | 0 <= i < |fields|
      ensures FieldConforms(s, ps, fields[i], v.members) <==> !FieldNeedsInput(s, fields[i])
    {
      assert ValidField(s, fields[i]);
      var field := fields[i].value;
      DefaultConforms(s, ps, field.fieldType, field.isArray, v.members[field.key]);
    }
    StructureConforms(s, ps, key, v);
  }

  lemma {:induction false} LeafNeedsInput(s: Schema, fieldType: Option<FieldType>)
    requires Resolved(s) && TypeReference(fieldType) == []
    ensures NeedsSomeInput(s, fieldType, false) <==> Temporal(fieldType)
  {
    assert [] !in s.structures;
    if Temporal(fieldType) {
      assert NeedsInput(s, fieldType, false, []);
    }
  }

  lemma {:induction false} StructureNeedsInput(s: Schema, fieldType: Option<FieldType>)
    requires ResolvedType(s, fieldType) && fieldType.value.kind.StructureKey?
    ensures var fields := s.structures[fieldType.value.kind.structureKey.value].fields;
            NeedsSomeInput(s, fieldType, false)
            <==> exists i :: 0 <= i < |fields| && FieldNeedsInput(s, fields[i])
  {
    var fields := s.structures[fieldType.value.kind.structureKey.value].fields;
    if NeedsSomeInput(s, fieldType, false) {
      var path :| NeedsInput(s, fieldType, false, path);
      var field := fields[path[0]].value;
      assert NeedsInput(s, field.fieldType, field.isArray, path[1..]);
      assert FieldNeedsInput(s, fields[path[0]]);
    }
    if exists i :: 0 <= i < |fields| && FieldNeedsInput(s, fields[i]) {
      var i :| 0 <= i < |fields| && FieldNeedsInput(s, fields[i]);
      var path :| NeedsInput(s, fields[i].value.fieldType, fields[i].value.isArray, path);
      assert ([i] + path)[1..] == path;
      assert NeedsInput(s, fieldType, false, [i] + path);
    }
  }

  // ---- Two defaults that are refused ----

  const DATE_TYPE: Option<FieldType> := Some(FieldType(BaseType(Some(DATE))))
  const EMPTY: Schema := Schema(map[], map[])

  /** The default of a date is the empty text, which is no date. */
  lemma {:induction false} DateDefaultRefused(ps: Parsers)
    requires Standard(ps)
    ensures Resolved(EMPTY) && ResolvedType(EMPTY, DATE_TYPE) && IsDefault(EMPTY, DATE_TYPE, false, Text([]))
    ensures !Conforms(EMPTY, ps, DATE_TYPE, false, Text([]))
  {
    LeafNeedsInput(EMPTY, DATE_TYPE);
    DefaultConforms(EMPTY, ps, DATE_TYPE, false, Text([]));
  }

  const HOLIDAY: Bytes := ['h' as byte]
  const HOLIDAY_DAY: Field := Field(HOLIDAY, HOLIDAY, [], false, DATE_TYPE)
  const HOLIDAYS: Schema := Schema(map[HOLIDAY := Structure(0, HOLIDAY, HOLIDAY, [], [Some(HOLIDAY_DAY)])], map[])
  const HOLIDAY_TYPE: Option<FieldType> := Some(FieldType(StructureKey(Some(HOLIDAY))))
  const HOLIDAY_DEFAULT: Json := Object(map[HOLIDAY := Text([])])

  /** Nor is the default of a structure accepted if one of its fields is a date. */
  lemma {:induction false} StructureDefaultRefused(ps: Parsers)
    requires Standard(ps)
    ensures Resolved(HOLIDAYS) && ResolvedType(HOLIDAYS, HOLIDAY_TYPE)
    ensures IsDefault(HOLIDAYS, HOLIDAY_TYPE, false, HOLIDAY_DEFAULT)
    ensures !Conforms(HOLIDAYS, ps, HOLIDAY_TYPE, false, HOLIDAY_DEFAULT)
  {
    AsciiRunesAreBytes(HOLIDAY);
    assert FieldKeys([Some(HOLIDAY_DAY)]) == [HOLIDAY];
    assert ValidFields(HOLIDAYS, HOLIDAYS.structures[HOLIDAY].fields);
    assert NeedsInput(HOLIDAYS, DATE_TYPE, false, []);
    assert [0][1..] == [];
    assert NeedsInput(HOLIDAYS, HOLIDAY_TYPE, false, [0]);
    DefaultConforms(HOLIDAYS, ps, HOLIDAY_TYPE, false, HOLIDAY_DEFAULT);
  }
}
