/** The protobuf messages of the configuration schema, and the getters generated for them. */
module Messages {
  import opened Foundation

  /** The oneof of a field type. An absent payload is a typed-nil wrapper: the case is set, its pointer is nil. */
  datatype Kind =
    | NoKind
    | BaseType(baseType: Option<int>)
    | StructureKey(structureKey: Option<Bytes>)
    | EnumKey(enumKey: Option<Bytes>)

  datatype FieldType = FieldType(kind: Kind)

  datatype Field = Field(
    key: Bytes, name: Bytes, description: Bytes, isArray: bool, fieldType: Option<FieldType>)

  datatype TreeNode = TreeNode(value: Option<Field>, children: seq<Option<TreeNode>>)

  datatype SelectOption = SelectOption(display: Bytes, value: Bytes, description: Bytes)

  datatype Structure = Structure(
    id: int, key: Bytes, name: Bytes, description: Bytes, fields: seq<Option<Field>>)

  datatype ConfigEnum = ConfigEnum(
    key: Bytes, name: Bytes, description: Bytes, values: seq<Option<SelectOption>>)

  datatype Config = Config(
    key: Bytes, description: Bytes, isArray: bool, fieldType: Option<FieldType>)

  const BASE_TYPE_UNSPECIFIED := 0
  const STRING := 1
  const INT := 2
  const DECIMAL := 3
  const BOOLEAN := 4
  const TIME := 5
  const DATE := 6
  const DATETIME := 7
  const TIME_RANGE := 8
  const DATE_RANGE := 9
  const DATETIME_RANGE := 10
  const IMAGE := 11
  const VIDEO := 12
  const FILE := 13

  predicate IsTypedNil(kind: Kind) {
    match kind
    case NoKind => false
    case BaseType(payload) => payload.None?
    case StructureKey(payload) => payload.None?
    case EnumKey(payload) => payload.None?
  }

  /** The outcome of reading through a pointer. */
  datatype Access<+T> = Read(value: T) | NilDereference

  function Dereference<T>(pointer: Option<T>): (r: Access<T>) {
    match pointer
    case None => NilDereference
    case Some(v) => Read(v)
  }

  function GetBaseType(x: Option<FieldType>): (r: Access<int>) {
    if x.Some? && x.value.kind.BaseType? then Dereference(x.value.kind.baseType) else Read(BASE_TYPE_UNSPECIFIED)
  }

  function GetStructureKey(x: Option<FieldType>): (r: Access<Bytes>) {
    if x.Some? && x.value.kind.StructureKey? then Dereference(x.value.kind.structureKey) else Read([])
  }

  function GetEnumKey(x: Option<FieldType>): (r: Access<Bytes>) {
    if x.Some? && x.value.kind.EnumKey? then Dereference(x.value.kind.enumKey) else Read([])
  }

  function GetType(x: Option<Field>): (r: Option<FieldType>) {
    if x.Some? then x.value.fieldType else None
  }
}
