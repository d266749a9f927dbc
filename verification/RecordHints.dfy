/**
  node/src/record.rs: projecting native values into JavaScript by their datatype, and the
  constructor category that is announced for a datatype without projecting anything.
 */
module RecordHints {
  import opened Sequences
  import V = Values
  import opened Transport

  /** Datatypes whose values hold no other values. */
  datatype ScalarType =
    | Null | Boolean
    | Int8 | Int16 | Int32 | Int64
    | UInt8 | UInt16 | UInt32 | UInt64
    | Float16 | Float32 | Float64
    | TimestampType(unit: V.TimeUnit)
    | Date32 | Date64
    | Time32(unit: V.TimeUnit) | Time64(unit: V.TimeUnit)
    | DurationType(unit: V.TimeUnit)
    | Binary | FixedSizeBinary(width: int) | LargeBinary | BinaryView
    | Utf8 | LargeUtf8 | Utf8View
    | Decimal32 | Decimal64 | Decimal128 | Decimal256

  datatype ListLayout = List | ListView | FixedSizeList(length: int) | LargeList | LargeListView

  datatype DataType =
    | Scalar(scalar: ScalarType)
    | Interval(unit: V.TimeUnit)
    | ListOf(layout: ListLayout, item: DataType)
    | Struct(fields: seq<DataType>)
    | Union(variants: seq<Variant>)
    | Dictionary(value: DataType)
    | Map(entries: DataType)
    | RunEndEncoded(values: DataType)

  datatype Variant = Variant(id: int, dataType: DataType)

  /** `JsValueHint`. */
  datatype Category =
    | NullValue | BooleanValue | NumberValue | BigIntValue | ArrayValue | BufferValue | StringValue
    | ObjectValue | MapValue

  /** The code is the index into the constructor table of node/defaults.js. */
  function Code(category: Category): nat {
    match category
    case NullValue => 0
    case BooleanValue => 1
    case NumberValue => 2
    case BigIntValue => 3
    case ArrayValue => 4
    case BufferValue => 5
    case StringValue => 6
    case ObjectValue => 7
    case MapValue => 9
  }

  /** The constructor category of a JavaScript value. */
  function CategoryOf(js: Js): Option<Category> {
    match js
    case JsNull => Some(NullValue)
    case JsBoolean(_) => Some(BooleanValue)
    case JsNumber(_) => Some(NumberValue)
    case JsBigInt(_) => Some(BigIntValue)
    case JsArray(_) => Some(ArrayValue)
    case JsBuffer(_) => Some(BufferValue)
    case JsString(_) => Some(StringValue)
    case JsObject(_) => Some(ObjectValue)
    case JsMap(_) => Some(MapValue)
    case _ => None
  }

  // ----- The hint -----

  function ScalarHint(scalar: ScalarType): Category {
    match scalar
    case Null => NullValue
    case Boolean => BooleanValue
    case Int8 => NumberValue
    case Int16 => NumberValue
    case Int32 => NumberValue
    case Date32 => NumberValue
    case Time32(_) => NumberValue
    case UInt8 => NumberValue
    case UInt16 => NumberValue
    case UInt32 => NumberValue
    case Float16 => NumberValue
    case Float32 => NumberValue
    case Float64 => NumberValue
    case Int64 => BigIntValue
    case UInt64 => BigIntValue
    case TimestampType(_) => BigIntValue
    case Date64 => BigIntValue
    case Time64(_) => BigIntValue
    case DurationType(_) => BigIntValue
    case Decimal32 => BigIntValue
    case Decimal64 => BigIntValue
    case Decimal128 => BigIntValue
    case Decimal256 => BigIntValue
    case Binary => BufferValue
    case LargeBinary => BufferValue
    case BinaryView => BufferValue
    case FixedSizeBinary(_) => BufferValue
    case Utf8 => StringValue
    case LargeUtf8 => StringValue
    case Utf8View => StringValue
  }

  /** `data_type_js_hint`: wrappers are announced as what they encode. */
  function Hint(dataType: DataType): Option<Category> {
    match dataType
    case Scalar(scalar) => Some(ScalarHint(scalar))
    case Interval(unit) =>
      if unit.YearMonth? then Some(NumberValue)
      else if unit.DayTime? || unit.MonthDayNano? then Some(ArrayValue)
      else None
    case ListOf(_, _) => Some(ArrayValue)
    case Struct(_) => Some(ArrayValue)
    case Union(_) => Some(ObjectValue)
    case Map(_) => Some(MapValue)
    case Dictionary(value) => Hint(value)
    case RunEndEncoded(values) => Hint(values)
  }

  /** A calendar layout, the only units an interval can have. */
  predicate Calendar(unit: V.TimeUnit) {
    unit.YearMonth? || unit.DayTime? || unit.MonthDayNano?
  }

  /** Every interval in the datatype has a calendar layout, as its constructors and `validate` see to. */
  predicate ValidIntervals(dataType: DataType) {
    match dataType
    case Scalar(_) => true
    case Interval(unit) => Calendar(unit)
    case ListOf(_, item) => ValidIntervals(item)
    case Struct(fields) => forall i :: 0 <= i < |fields| ==> ValidIntervals(fields[i])
    case Union(variants) => forall i :: 0 <= i < |variants| ==> VariantIntervals(variants[i])
    case Map(entries) => ValidIntervals(entries)
    case Dictionary(value) => ValidIntervals(value)
    case RunEndEncoded(values) => ValidIntervals(values)
  }

  predicate VariantIntervals(variant: Variant) { ValidIntervals(variant.dataType) }

  /** Every datatype that can be built has a hint, through any wrappers. */
  lemma {:induction false} HintTotal(dataType: DataType)
    requires ValidIntervals(dataType)
    ensures Hint(dataType).Some?
  {
    match dataType
    case Dictionary(value) => HintTotal(value);
    case RunEndEncoded(values) => HintTotal(values);
    case _ =>
  }

  // ----- The projection -----

  /** `as_i128`. */
  function Signed(value: V.Value): Option<int> {
    if value.IsInteger() && value.Integer() < 0x8000_0000_0000_0000_0000_0000_0000_0000 then
      Some(value.Integer())
    else None
  }

  /** `as_u128`. */
  function Unsigned(value: V.Value): Option<int> {
    if value.IsInteger() && 0 <= value.Integer() then Some(value.Integer()) else None
  }

  function Number(n: Option<int>, low: int, high: int): Option<Js> {
    if n.Some? && low <= n.value < high then Some(JsNumber(V.Integral(n.value))) else None
  }

  function Big(n: Option<int>): Option<Js> {
    if n.Some? then Some(JsBigInt(n.value)) else None
  }

  function Int32Of(value: V.Value): Option<Js> {
    Number(Signed(value), -0x8000_0000, 0x8000_0000)
  }

  /**
    `BigInt(...)` of a string, as JavaScript reads one; the coefficient of a 256-bit
    decimal is stored as text.
   */
  type BigIntReader = string -> Option<int>

  function ProjectScalar(read: BigIntReader, scalar: ScalarType, value: V.Value): Option<Js> {
    match scalar
    case Null => Some(JsNull)
    case Boolean => if value.Bool? then Some(JsBoolean(value.b)) else None
    case Int8 => Int32Of(value)
    case Int16 => Int32Of(value)
    case Int32 => Int32Of(value)
    case Date32 => Int32Of(value)
    case Time32(_) => Int32Of(value)
    case UInt8 => Number(Unsigned(value), 0, 0x1_0000_0000)
    case UInt16 => Number(Unsigned(value), 0, 0x1_0000_0000)
    case UInt32 => Number(Unsigned(value), 0, 0x1_0000_0000)
    case Int64 => Big(Signed(value))
    case TimestampType(_) => Big(Signed(value))
    case Date64 => Big(Signed(value))
    case Time64(_) => Big(Signed(value))
    case DurationType(_) => Big(Signed(value))
    case UInt64 => Big(Unsigned(value))
    case Float16 => if value.Float? then Some(JsNumber(value.float)) else None
    case Float32 => if value.Float? then Some(JsNumber(value.float)) else None
    case Float64 => if value.Float? then Some(JsNumber(value.float)) else None
    case Binary => if value.Bytes? then Some(JsBuffer(value.bytes)) else None
    case LargeBinary => if value.Bytes? then Some(JsBuffer(value.bytes)) else None
    case BinaryView => if value.Bytes? then Some(JsBuffer(value.bytes)) else None
    case FixedSizeBinary(_) => if value.Bytes? then Some(JsBuffer(value.bytes)) else None
    case Utf8 => if value.Str? then Some(JsString(value.text)) else None
    case LargeUtf8 => if value.Str? then Some(JsString(value.text)) else None
    case Utf8View => if value.Str? then Some(JsString(value.text)) else None
    case Decimal32 => Big(Signed(value))
    case Decimal64 => Big(Signed(value))
    case Decimal128 => Big(Signed(value))
    case Decimal256 => if value.Str? then Big(read(value.text)) else None
  }

  /** A component of an interval: the nanoseconds of a month-day-nano one are wide. */
  function Component(unit: V.TimeUnit, index: nat, value: V.Value): Option<Js> {
    if unit.MonthDayNano? && index == 2 then Big(Signed(value)) else Int32Of(value)
  }

  /** The parts if all are there. */
  function Collect(parts: seq<Option<Js>>): Option<Js> {
    if forall i :: 0 <= i < |parts| ==> parts[i].Some? then
      Some(JsArray(seq(|parts|, i requires 0 <= i < |parts| => parts[i].value)))
    else None
  }

  /** The first variant of a union with this type id. */
  function VariantIndex(variants: seq<Variant>, id: int): (i: Option<nat>)
    ensures i.Some? ==> i.value < |variants| && variants[i.value].id == id
    ensures i.Some? ==> forall k :: 0 <= k < i.value ==> variants[k].id != id
    ensures i.None? ==> forall k :: 0 <= k < |variants| ==> variants[k].id != id
  {
    if variants == [] then None
    else if variants[0].id == id then Some(0)
    else
      var rest := VariantIndex(variants[1..], id);
      if rest.None? then None else Some(rest.value + 1)
  }

  /** The variant a type id selects: the first of that id. */
  predicate SelectsVariant(variants: seq<Variant>, id: int, i: int) {
    0 <= i < |variants| && variants[i].id == id && forall k :: 0 <= k < i ==> variants[k].id != id
  }

  /** The type id of a union value, if it is one byte. */
  function TypeId(value: V.Value): Option<int> {
    var id := Signed(value);
    if id.Some? && -128 <= id.value < 128 then id else None
  }

  function Tagged(id: int, payload: Js): Js {
    JsObject([Property("typeId", JsNumber(V.Integral(id))), Property("value", payload)])
  }

  /** What a value of a datatype is in JavaScript: None where the projection fails. */
  function Project(read: BigIntReader, dataType: DataType, value: V.Value): Option<Js>
    decreases dataType
  {
    if value.Null? then Some(JsNull)
    else
      match dataType
      case Scalar(scalar) => ProjectScalar(read, scalar, value)
      case Interval(unit) => ProjectInterval(unit, value)
      case ListOf(_, item) =>
        if !value.Sequence? then None
        else Collect(seq(|value.items|, i requires 0 <= i < |value.items| => Project(read, item, value.items[i])))
      case Struct(fields) =>
        if !value.Sequence? || |value.items| != |fields| then None
        else Collect(seq(|fields|, i requires 0 <= i < |fields| => Project(read, fields[i], value.items[i])))
      case Union(variants) => ProjectUnion(read, variants, value)
      case Map(entries) =>
        if entries.Struct? && |entries.fields| == 2 then ProjectMap(read, entries.fields, value) else None
      case Dictionary(inner) => Project(read, inner, value)
      case RunEndEncoded(inner) => Project(read, inner, value)
  }

  function ProjectInterval(unit: V.TimeUnit, value: V.Value): Option<Js> {
    if unit.YearMonth? then Int32Of(value)
    else if !(unit.DayTime? || unit.MonthDayNano?) || !value.Sequence? then None
    else Collect(seq(|value.items|, i requires 0 <= i < |value.items| => Component(unit, i, value.items[i])))
  }

  function ProjectUnion(read: BigIntReader, variants: seq<Variant>, value: V.Value): Option<Js>
    decreases variants
  {
    if !value.Sequence? || |value.items| != 2 || TypeId(value.items[0]).None? then None
    else
      var id := TypeId(value.items[0]).value;
      var index := VariantIndex(variants, id);
      if index.None? then None
      else
        var payload := ProjectVariant(read, variants[index.value], value.items[1]);
        if payload.None? then None else Some(Tagged(id, payload.value))
  }

  function ProjectVariant(read: BigIntReader, variant: Variant, value: V.Value): Option<Js>
    decreases variant
  {
    Project(read, variant.dataType, value)
  }

  function ProjectMap(read: BigIntReader, fields: seq<DataType>, value: V.Value): Option<Js>
    requires |fields| == 2
    decreases fields, 1
  {
    if !value.Mapping? then None
    else if exists i :: 0 <= i < |value.entries| && ProjectEntry(read, fields, value.entries[i]).None? then None
    else
      FillMap(seq(|value.entries|,
          i requires 0 <= i < |value.entries| => ProjectEntry(read, fields, value.entries[i]).value))
  }

  function ProjectEntry(read: BigIntReader, fields: seq<DataType>, entry: V.Entry): Option<JsEntry>
    requires |fields| == 2
    decreases fields, 0
  {
    var key, item := Project(read, fields[0], entry.key), Project(read, fields[1], entry.value);
    if key.Some? && item.Some? then Some(JsEntry(key.value, item.value)) else None
  }

  // ----- What the hint promises -----

  /**
    A value other than null that projects at all projects to a value of the category that
    was announced for its datatype, through any wrappers.
   */
  lemma {:induction false} HintKeepsItsWord(read: BigIntReader, dataType: DataType, value: V.Value)
    requires !value.Null? && Project(read, dataType, value).Some?
    ensures Hint(dataType).Some? && CategoryOf(Project(read, dataType, value).value) == Hint(dataType)
    decreases dataType
  {
    match dataType
    case Dictionary(inner) => HintKeepsItsWord(read, inner, value);
    case RunEndEncoded(inner) => HintKeepsItsWord(read, inner, value);
    case Scalar(scalar) => ScalarKeepsItsWord(read, scalar, value);
    case _ =>
  }

  lemma ScalarKeepsItsWord(read: BigIntReader, scalar: ScalarType, value: V.Value)
    requires ProjectScalar(read, scalar, value).Some?
    ensures CategoryOf(ProjectScalar(read, scalar, value).value) == Some(ScalarHint(scalar))
  {
    hide Signed, Unsigned;
  }

  /** A datatype without a hint projects nothing but null. */
  lemma NoHintNoValue(read: BigIntReader, dataType: DataType, value: V.Value)
    requires Hint(dataType).None? && !value.Null?
    ensures Project(read, dataType, value).None?
  {
    hide Project, Hint;
    if Project(read, dataType, value).Some? {
      HintKeepsItsWord(read, dataType, value);
    }
  }

  /** Numbers arrive as the very integer that was stored, none of them rounded. */
  lemma IntegersExact(read: BigIntReader, scalar: ScalarType, value: V.Value)
    requires ProjectScalar(read, scalar, value).Some? && scalar != Decimal256
    ensures var js := ProjectScalar(read, scalar, value).value;
      && (js.JsBigInt? ==> value.IsInteger() && value.Integer() == js.n)
      && (js.JsNumber? && !value.Float? ==>
            value.IsInteger() && js.number == V.Integral(value.Integer())
                && -0x8000_0000 <= value.Integer() < 0x1_0000_0000)
  {
  }

  /** A union value is the type id it carries beside the projection by the first variant of that id. */
  lemma UnionKeepsVariant(read: BigIntReader, variants: seq<Variant>, id: V.Value, payload: V.Value)
    ensures var projected := Project(read, Union(variants), V.Sequence([id, payload]));
      projected.Some? ==>
        && id.IsInteger() && -128 <= id.Integer() < 128
        && exists i, js :: 0 <= i < |variants| && variants[i].id == id.Integer()
             && (forall k :: 0 <= k < i ==> variants[k].id != id.Integer())
             && ProjectVariant(read, variants[i], payload) == Some(js)
             && projected.value
                == JsObject([Property("typeId", JsNumber(V.Integral(id.Integer()))), Property("value", js)])
  {
    hide ProjectVariant;
    var index := VariantIndex(variants, if id.IsInteger() then id.Integer() else 0);
    assert Project(read, Union(variants), V.Sequence([id, payload]))
        == ProjectUnion(read, variants, V.Sequence([id, payload]));
  }

  /** A map projects entry by entry, in order, when no two keys become one. */
  lemma MapKeepsOrder(read: BigIntReader, fields: seq<DataType>, entries: seq<V.Entry>)
    requires |fields| == 2
    ensures var projected := Project(read, Map(Struct(fields)), V.Mapping(entries));
      projected.Some? ==>
        && projected.value.JsMap? && |projected.value.entries| == |entries|
        && forall i :: 0 <= i < |entries| ==>
             && Project(read, fields[0], entries[i].key).Some?
             && projected.value.entries[i].key == MapKey(Project(read, fields[0], entries[i].key).value)
             && Some(projected.value.entries[i].value) == Project(read, fields[1], entries[i].value)
  {
    hide KeysCollide, MapKey;
    assert Project(read, Map(Struct(fields)), V.Mapping(entries)) == ProjectMap(read, fields, V.Mapping(entries));
    if ProjectMap(read, fields, V.Mapping(entries)).Some? {
      forall i | 0 <= i < |entries| ensures ProjectEntry(read, fields, entries[i]).Some? {
      }
    }
  }

  lemma CollectKeeps(parts: seq<Option<Js>>)
    ensures Collect(parts).Some? <==> forall i :: 0 <= i < |parts| ==> parts[i].Some?
    ensures Collect(parts).Some? ==>
      var js := Collect(parts).value;
      js.JsArray? && |js.items| == |parts| && forall i :: 0 <= i < |parts| ==> Some(js.items[i]) == parts[i]
  {
  }

  /** A list projects item by item, and projects exactly when all of its items do. */
  lemma ListKeepsOrder(read: BigIntReader, layout: ListLayout, item: DataType, items: seq<V.Value>)
    ensures var projected := Project(read, ListOf(layout, item), V.Sequence(items));
      && (projected.Some? <==> forall i :: 0 <= i < |items| ==> Project(read, item, items[i]).Some?)
      && (projected.Some? ==>
            && projected.value.JsArray? && |projected.value.items| == |items|
            && forall i :: 0 <= i < |items| ==> Some(projected.value.items[i]) == Project(read, item, items[i]))
  {
    var parts := seq(|items|, i requires 0 <= i < |items| => Project(read, item, items[i]));
    CollectKeeps(parts);
    assert forall i :: 0 <= i < |items| ==> parts[i] == Project(read, item, items[i]);
    assert Project(read, ListOf(layout, item), V.Sequence(items)) == Collect(parts);
  }

  /** A struct projects by position, each item by its own field, and only with an item for every field. */
  lemma StructKeepsOrder(read: BigIntReader, fields: seq<DataType>, items: seq<V.Value>)
    ensures var projected := Project(read, Struct(fields), V.Sequence(items));
      && (projected.Some? <==> |items| == |fields| && forall i :: 0 <= i < |items| ==>
          Project(read, fields[i], items[i]).Some?)
      && (projected.Some? ==>
            && projected.value.JsArray? && |projected.value.items| == |items|
            && forall i :: 0 <= i < |items| ==> Some(projected.value.items[i]) == Project(read, fields[i], items[i]))
  {
    if |items| == |fields| {
      var parts := seq(|fields|, i requires 0 <= i < |fields| => Project(read, fields[i], items[i]));
      CollectKeeps(parts);
      assert forall i :: 0 <= i < |items| ==> parts[i] == Project(read, fields[i], items[i]);
      assert Project(read, Struct(fields), V.Sequence(items)) == Collect(parts);
    }
  }

  // ----- What shows what, told from the JavaScript value -----

  predicate Signed32(scalar: ScalarType) {
    scalar.Int8? || scalar.Int16? || scalar.Int32? || scalar.Date32? || scalar.Time32?
  }

  predicate Unsigned32(scalar: ScalarType) {
    scalar.UInt8? || scalar.UInt16? || scalar.UInt32?
  }

  predicate SignedWide(scalar: ScalarType) {
    || scalar.Int64? || scalar.TimestampType? || scalar.Date64? || scalar.Time64? || scalar.DurationType?
    || scalar.Decimal32? || scalar.Decimal64? || scalar.Decimal128?
  }

  predicate Floating(scalar: ScalarType) {
    scalar.Float16? || scalar.Float32? || scalar.Float64?
  }

  predicate Textual(scalar: ScalarType) {
    scalar.Utf8? || scalar.LargeUtf8? || scalar.Utf8View?
  }

  predicate BinaryData(scalar: ScalarType) {
    scalar.Binary? || scalar.FixedSizeBinary? || scalar.LargeBinary? || scalar.BinaryView?
  }

  predicate IsInteger(value: V.Value, n: int) { value.IsInteger() && value.Integer() == n }

  /** A signed 32-bit integer as a number. */
  predicate ShowsInt32(value: V.Value, js: Js) {
    && js.JsNumber? && js.number.Integral?
    && IsInteger(value, js.number.n) && -2_147_483_648 <= js.number.n <= 2_147_483_647
  }

  /** A signed 128-bit integer as a bigint. */
  predicate ShowsInt128(value: V.Value, js: Js) {
    js.JsBigInt? && IsInteger(value, js.n) && js.n <= 170_141_183_460_469_231_731_687_303_715_884_105_727
  }

  predicate ShowsNumber(scalar: ScalarType, value: V.Value, number: V.Double) {
    || (Floating(scalar) && value == V.Float(number))
    || (Signed32(scalar) && ShowsInt32(value, JsNumber(number)))
    || (Unsigned32(scalar) && number.Integral? && IsInteger(value, number.n) && 0 <= number.n <= 4_294_967_295)
  }

  predicate ShowsBigInt(read: BigIntReader, scalar: ScalarType, value: V.Value, n: int) {
    || (SignedWide(scalar) && ShowsInt128(value, JsBigInt(n)))
    || (scalar.UInt64? && IsInteger(value, n) && 0 <= n)
    || (scalar.Decimal256? && value.Str? && read(value.text) == Some(n))
  }

  predicate ShowsScalar(read: BigIntReader, scalar: ScalarType, value: V.Value, js: Js) {
    match js
    case JsNull => scalar.Null?
    case JsBoolean(b) => scalar.Boolean? && value == V.Bool(b)
    case JsNumber(number) => ShowsNumber(scalar, value, number)
    case JsBigInt(n) => ShowsBigInt(read, scalar, value, n)
    case JsString(text) => Textual(scalar) && value == V.Str(text)
    case JsBuffer(bytes) => BinaryData(scalar) && value == V.Bytes(bytes)
    case _ => false
  }

  /** Months are a number; of the other layouts' components only the third of a month-day-nano one is a bigint. */
  predicate ShowsInterval(unit: V.TimeUnit, value: V.Value, js: Js) {
    if unit.YearMonth? then ShowsInt32(value, js)
    else
      && (unit.DayTime? || unit.MonthDayNano?)
      && js.JsArray? && value.Sequence? && |value.items| == |js.items|
      && forall i :: 0 <= i < |js.items| ==>
           if unit.MonthDayNano? && i == 2 then ShowsInt128(value.items[i], js.items[i])
           else ShowsInt32(value.items[i], js.items[i])
  }

  /** Two keys of a Map are different: other values, or objects, which are never the same. */
  predicate KeysDiffer(a: Js, b: Js) {
    a != b || a.JsArray? || a.JsObject? || a.JsMap? || a.JsBuffer? || a.JsDate? || a.JsNative?
  }

  /** Whether a JavaScript value shows a value of a datatype, through any encodings. */
  ghost predicate Shows(read: BigIntReader, dataType: DataType, value: V.Value, js: Js)
    decreases dataType, 1
  {
    if dataType.Dictionary? then Shows(read, dataType.value, value, js)
    else if dataType.RunEndEncoded? then Shows(read, dataType.values, value, js)
    else if value.Null? then js == JsNull
    else
      match dataType
      case Scalar(scalar) => ShowsScalar(read, scalar, value, js)
      case Interval(unit) => ShowsInterval(unit, value, js)
      case ListOf(_, item) => ShowsList(read, item, value, js)
      case Struct(fields) => ShowsStruct(read, fields, value, js)
      case Union(variants) => ShowsUnion(read, variants, value, js)
      case Map(entries) => entries.Struct? && |entries.fields| == 2 && ShowsMap(read, entries.fields, value, js)
  }

  ghost predicate ShowsList(read: BigIntReader, item: DataType, value: V.Value, js: Js)
    decreases item, 2
  {
    && js.JsArray? && value.Sequence? && |value.items| == |js.items|
    && forall i :: 0 <= i < |js.items| ==> Shows(read, item, value.items[i], js.items[i])
  }

  ghost predicate ShowsStruct(read: BigIntReader, fields: seq<DataType>, value: V.Value, js: Js)
    decreases fields, 0
  {
    && js.JsArray? && value.Sequence? && |value.items| == |js.items| == |fields|
    && forall i :: 0 <= i < |js.items| ==> Shows(read, fields[i], value.items[i], js.items[i])
  }

  /** The type id, one signed byte, beside what the first variant of that id shows. */
  ghost predicate ShowsUnion(read: BigIntReader, variants: seq<Variant>, value: V.Value, js: Js)
    decreases variants
  {
    && value.Sequence? && |value.items| == 2 && js.JsObject? && |js.properties| == 2
    && js.properties[0].name == "typeId" && js.properties[1].name == "value"
    && js.properties[0].value.JsNumber? && js.properties[0].value.number.Integral?
    && var id := js.properties[0].value.number.n;
      && IsInteger(value.items[0], id) && -128 <= id <= 127
      && exists i :: 0 <= i < |variants| && variants[i].id == id && (forall k :: 0 <= k < i ==> variants[k].id != id)
           && ShowsVariant(read, variants[i], value.items[1], js.properties[1].value)
  }

  ghost predicate ShowsVariant(read: BigIntReader, variant: Variant, value: V.Value, js: Js)
    decreases variant
  {
    Shows(read, variant.dataType, value, js)
  }

  /** Entries in order, and no two keys the same. */
  ghost predicate ShowsMap(read: BigIntReader, fields: seq<DataType>, value: V.Value, js: Js)
    requires |fields| == 2
    decreases fields, 1
  {
    && js.JsMap? && value.Mapping? && |value.entries| == |js.entries|
    && (forall i :: 0 <= i < |js.entries| ==> ShowsEntry(read, fields, value.entries[i], js.entries[i]))
    && (forall i, j :: 0 <= i < j < |js.entries| ==> KeysDiffer(js.entries[i].key, js.entries[j].key))
  }

  /** A Map holds a key -0 as +0. */
  ghost predicate ShowsEntry(read: BigIntReader, fields: seq<DataType>, entry: V.Entry, shown: JsEntry)
    requires |fields| == 2
    decreases fields, 0
  {
    && Shows(read, fields[1], entry.value, shown.value)
    && shown.key != JsNumber(V.NegativeZero)
    && (|| Shows(read, fields[0], entry.key, shown.key)
        || (shown.key == JsNumber(V.Integral(0)) && Shows(read, fields[0], entry.key, JsNumber(V.NegativeZero))))
  }

  /** One step into the projection of anything but null. */
  lemma ProjectStep(read: BigIntReader, dataType: DataType, value: V.Value)
    ensures dataType.Dictionary? ==> Project(read, dataType, value) == Project(read, dataType.value, value)
    ensures dataType.RunEndEncoded? ==> Project(read, dataType, value) == Project(read, dataType.values, value)
    ensures value.Null? ==> Project(read, dataType, value) == Some(JsNull)
    ensures !value.Null? && dataType.Scalar? ==>
      Project(read, dataType, value) == ProjectScalar(read, dataType.scalar, value)
    ensures !value.Null? && dataType.Interval? ==>
      Project(read, dataType, value) == ProjectInterval(dataType.unit, value)
    ensures !value.Null? && dataType.ListOf? ==>
      Project(read, dataType, value) == ProjectList(read, dataType.item, value)
    ensures !value.Null? && dataType.Struct? ==>
      Project(read, dataType, value) == ProjectStruct(read, dataType.fields, value)
    ensures !value.Null? && dataType.Union? ==>
      Project(read, dataType, value) == ProjectUnion(read, dataType.variants, value)
    ensures !value.Null? && dataType.Map? && dataType.entries.Struct? && |dataType.entries.fields| == 2 ==>
      Project(read, dataType, value) == ProjectMap(read, dataType.entries.fields, value)
    ensures !value.Null? && dataType.Map? && !(dataType.entries.Struct? && |dataType.entries.fields| == 2) ==>
      Project(read, dataType, value).None?
  {
    hide ProjectScalar, ProjectInterval, ProjectUnion, ProjectMap, Collect;
  }

  function ProjectList(read: BigIntReader, item: DataType, value: V.Value): Option<Js> {
    if !value.Sequence? then None
    else Collect(seq(|value.items|, i requires 0 <= i < |value.items| => Project(read, item, value.items[i])))
  }

  function ProjectStruct(read: BigIntReader, fields: seq<DataType>, value: V.Value): Option<Js> {
    if !value.Sequence? || |value.items| != |fields| then None
    else Collect(seq(|fields|, i requires 0 <= i < |fields| => Project(read, fields[i], value.items[i])))
  }

  lemma ShowsStep(read: BigIntReader, dataType: DataType, value: V.Value, js: Js)
    ensures dataType.Dictionary? ==> Shows(read, dataType, value, js) == Shows(read, dataType.value, value, js)
    ensures dataType.RunEndEncoded? ==> Shows(read, dataType, value, js) == Shows(read, dataType.values, value, js)
    ensures !dataType.Dictionary? && !dataType.RunEndEncoded? && value.Null? ==>
      (Shows(read, dataType, value, js) <==> js == JsNull)
    ensures !value.Null? && dataType.Scalar? ==>
      Shows(read, dataType, value, js) == ShowsScalar(read, dataType.scalar, value, js)
    ensures !value.Null? && dataType.Interval? ==>
      Shows(read, dataType, value, js) == ShowsInterval(dataType.unit, value, js)
    ensures !value.Null? && dataType.ListOf? ==>
      Shows(read, dataType, value, js) == ShowsList(read, dataType.item, value, js)
    ensures !value.Null? && dataType.Struct? ==>
      Shows(read, dataType, value, js) == ShowsStruct(read, dataType.fields, value, js)
    ensures !value.Null? && dataType.Union? ==>
      Shows(read, dataType, value, js) == ShowsUnion(read, dataType.variants, value, js)
    ensures !value.Null? && dataType.Map? && dataType.entries.Struct? && |dataType.entries.fields| == 2 ==>
      Shows(read, dataType, value, js) == ShowsMap(read, dataType.entries.fields, value, js)
    ensures !value.Null? && dataType.Map? && !(dataType.entries.Struct? && |dataType.entries.fields| == 2) ==>
      !Shows(read, dataType, value, js)
  {
    hide ShowsScalar, ShowsInterval, ShowsUnion, ShowsMap;
  }

  /** The projection is the one JavaScript value that shows the value, and fails where none does. */
  lemma {:induction false} ProjectShows(read: BigIntReader, dataType: DataType, value: V.Value, js: Js)
    ensures Project(read, dataType, value) == Some(js) <==> Shows(read, dataType, value, js)
    decreases dataType, 1
  {
    hide Project, Shows, ProjectScalar, ProjectInterval, ShowsScalar, ShowsInterval;
    hide ShowsUnion, ProjectUnion, ShowsMap, ProjectMap, ProjectList, ShowsList, ProjectStruct, ShowsStruct;
    ProjectStep(read, dataType, value);
    ShowsStep(read, dataType, value, js);
    match dataType
    case Dictionary(inner) => ProjectShows(read, inner, value, js);
    case RunEndEncoded(inner) => ProjectShows(read, inner, value, js);
    case Scalar(scalar) => ScalarShows(read, scalar, value, js);
    case Interval(unit) => IntervalShows(unit, value, js);
    case ListOf(_, item) => ListShows(read, item, value, js);
    case Struct(fields) => StructShows(read, fields, value, js);
    case Union(variants) => UnionShows(read, variants, value, js);
    case Map(entries) =>
      if entries.Struct? && |entries.fields| == 2 { MapShows(read, entries.fields, value, js); }
  }

  /** What can be read off a JavaScript value about the value it shows, whatever its datatype. */
  lemma {:induction false} ShownPayload(read: BigIntReader, dataType: DataType, value: V.Value, js: Js)
    requires Shows(read, dataType, value, js)
    ensures js.JsBoolean? ==> value == V.Bool(js.b)
    ensures js.JsString? ==> value == V.Str(js.text)
    ensures js.JsBuffer? ==> value == V.Bytes(js.bytes)
    ensures js.JsNumber? ==>
      value == V.Float(js.number) || (js.number.Integral? && value.IsInteger() && value.Integer() == js.number.n)
    ensures js.JsBigInt? ==>
      || (value.IsInteger() && value.Integer() == js.n)
      || (value.Str? && read(value.text) == Some(js.n))
    decreases dataType
  {
    hide ShowsUnion, ShowsMap, ShowsList, ShowsStruct;
    match dataType
    case Dictionary(inner) => ShownPayload(read, inner, value, js);
    case RunEndEncoded(inner) => ShownPayload(read, inner, value, js);
    case Scalar(_) => ShowsStep(read, dataType, value, js); hide Shows;
    case Interval(_) => ShowsStep(read, dataType, value, js); hide Shows;
    case _ => CompoundShape(read, dataType, value, js);
  }

  lemma CompoundShape(read: BigIntReader, dataType: DataType, value: V.Value, js: Js)
    requires Shows(read, dataType, value, js)
    requires dataType.ListOf? || dataType.Struct? || dataType.Union? || dataType.Map?
    ensures js.JsNull? || js.JsArray? || js.JsObject? || js.JsMap?
  {
    ShowsStep(read, dataType, value, js);
    hide Shows;
  }

  lemma IntegersShow(value: V.Value, js: Js)
    ensures Int32Of(value) == Some(js) <==> ShowsInt32(value, js)
    ensures Big(Signed(value)) == Some(js) <==> ShowsInt128(value, js)
  {
  }

  lemma UnsignedShow(value: V.Value, js: Js)
    ensures Number(Unsigned(value), 0, 0x1_0000_0000) == Some(js)
       <==> js.JsNumber? && js.number.Integral? && IsInteger(value, js.number.n) && 0 <= js.number.n <= 4_294_967_295
    ensures Big(Unsigned(value)) == Some(js) <==> js.JsBigInt? && IsInteger(value, js.n) && 0 <= js.n
  {
  }

  lemma SignedNumbersShow(read: BigIntReader, scalar: ScalarType, value: V.Value, js: Js)
    requires Signed32(scalar)
    ensures ProjectScalar(read, scalar, value) == Some(js) <==> ShowsScalar(read, scalar, value, js)
  {
    hide ProjectScalar, ShowsScalar, Signed32, Int32Of, ShowsInt32;
    SignedIsInt32(read, scalar, value);
    SignedShown(read, scalar, value, js);
    IntegersShow(value, js);
  }

  lemma SignedIsInt32(read: BigIntReader, scalar: ScalarType, value: V.Value)
    requires Signed32(scalar)
    ensures ProjectScalar(read, scalar, value) == Int32Of(value)
  {
    hide Int32Of;
  }

  lemma SignedShown(read: BigIntReader, scalar: ScalarType, value: V.Value, js: Js)
    requires Signed32(scalar)
    ensures ShowsScalar(read, scalar, value, js) <==> ShowsInt32(value, js)
  {
    hide IsInteger;
  }

  lemma UnsignedNumbersShow(read: BigIntReader, scalar: ScalarType, value: V.Value, js: Js)
    requires Unsigned32(scalar)
    ensures ProjectScalar(read, scalar, value) == Some(js) <==> ShowsScalar(read, scalar, value, js)
  {
    hide ProjectScalar, ShowsScalar, Unsigned32, Unsigned, Number, IsInteger;
    UnsignedIsNumber(read, scalar, value);
    UnsignedShown(read, scalar, value, js);
    UnsignedShow(value, js);
  }

  lemma UnsignedIsNumber(read: BigIntReader, scalar: ScalarType, value: V.Value)
    requires Unsigned32(scalar)
    ensures ProjectScalar(read, scalar, value) == Number(Unsigned(value), 0, 0x1_0000_0000)
  {
    hide Number, Unsigned;
  }

  lemma UnsignedShown(read: BigIntReader, scalar: ScalarType, value: V.Value, js: Js)
    requires Unsigned32(scalar)
    ensures ShowsScalar(read, scalar, value, js)
       <==> js.JsNumber? && js.number.Integral? && IsInteger(value, js.number.n) && 0 <= js.number.n <= 4_294_967_295
  {
    hide IsInteger;
  }

  lemma FloatsShow(read: BigIntReader, scalar: ScalarType, value: V.Value, js: Js)
    requires Floating(scalar)
    ensures ProjectScalar(read, scalar, value) == Some(js) <==> ShowsScalar(read, scalar, value, js)
  {
    assert ProjectScalar(read, scalar, value) == if value.Float? then Some(JsNumber(value.float)) else None;
    hide ProjectScalar;
  }

  lemma WideIntegersShow(read: BigIntReader, scalar: ScalarType, value: V.Value, js: Js)
    requires SignedWide(scalar)
    ensures ProjectScalar(read, scalar, value) == Some(js) <==> ShowsScalar(read, scalar, value, js)
  {
    hide ProjectScalar, ShowsScalar, SignedWide, Big, Signed, ShowsInt128;
    WideIsBig(read, scalar, value);
    WideShown(read, scalar, value, js);
    IntegersShow(value, js);
  }

  lemma WideIsBig(read: BigIntReader, scalar: ScalarType, value: V.Value)
    requires SignedWide(scalar)
    ensures ProjectScalar(read, scalar, value) == Big(Signed(value))
  {
    hide Big, Signed;
  }

  lemma WideShown(read: BigIntReader, scalar: ScalarType, value: V.Value, js: Js)
    requires SignedWide(scalar)
    ensures ShowsScalar(read, scalar, value, js) <==> ShowsInt128(value, js)
  {
    hide IsInteger;
  }

  lemma OtherIntegersShow(read: BigIntReader, scalar: ScalarType, value: V.Value, js: Js)
    requires scalar.UInt64? || scalar.Decimal256?
    ensures ProjectScalar(read, scalar, value) == Some(js) <==> ShowsScalar(read, scalar, value, js)
  {
    UnsignedShow(value, js);
    hide Unsigned, IsInteger;
  }

  lemma PlainShow(read: BigIntReader, scalar: ScalarType, value: V.Value, js: Js)
    requires scalar.Null? || scalar.Boolean?
    ensures ProjectScalar(read, scalar, value) == Some(js) <==> ShowsScalar(read, scalar, value, js)
  {
  }

  lemma TextShow(read: BigIntReader, scalar: ScalarType, value: V.Value, js: Js)
    requires Textual(scalar)
    ensures ProjectScalar(read, scalar, value) == Some(js) <==> ShowsScalar(read, scalar, value, js)
  {
    assert ProjectScalar(read, scalar, value) == if value.Str? then Some(JsString(value.text)) else None;
    hide ProjectScalar;
  }

  lemma BinaryShow(read: BigIntReader, scalar: ScalarType, value: V.Value, js: Js)
    requires BinaryData(scalar)
    ensures ProjectScalar(read, scalar, value) == Some(js) <==> ShowsScalar(read, scalar, value, js)
  {
    assert ProjectScalar(read, scalar, value) == if value.Bytes? then Some(JsBuffer(value.bytes)) else None;
    hide ProjectScalar;
  }

  lemma ScalarShows(read: BigIntReader, scalar: ScalarType, value: V.Value, js: Js)
    ensures ProjectScalar(read, scalar, value) == Some(js) <==> ShowsScalar(read, scalar, value, js)
  {
    hide ProjectScalar, ShowsScalar;
    if Signed32(scalar) {
      SignedNumbersShow(read, scalar, value, js);
    } else if Unsigned32(scalar) {
      UnsignedNumbersShow(read, scalar, value, js);
    } else if Floating(scalar) {
      FloatsShow(read, scalar, value, js);
    } else if SignedWide(scalar) {
      WideIntegersShow(read, scalar, value, js);
    } else if scalar.UInt64? || scalar.Decimal256? {
      OtherIntegersShow(read, scalar, value, js);
    } else if Textual(scalar) {
      TextShow(read, scalar, value, js);
    } else if BinaryData(scalar) {
      BinaryShow(read, scalar, value, js);
    } else {
      PlainShow(read, scalar, value, js);
    }
  }

  lemma IntervalShows(unit: V.TimeUnit, value: V.Value, js: Js)
    ensures ProjectInterval(unit, value) == Some(js) <==> ShowsInterval(unit, value, js)
  {
    hide Int32Of, Signed, ShowsInt32, ShowsInt128, Collect;
    IntegersShow(value, js);
    if value.Sequence? && (unit.DayTime? || unit.MonthDayNano?) {
      var items := value.items;
      var parts := seq(|items|, i requires 0 <= i < |items| => Component(unit, i, items[i]));
      CollectIff(parts, js);
      if js.JsArray? && |js.items| == |items| {
        forall i: nat | i < |items|
          ensures Int32Of(items[i]) == Some(js.items[i]) <==> ShowsInt32(items[i], js.items[i])
          ensures Big(Signed(items[i])) == Some(js.items[i]) <==> ShowsInt128(items[i], js.items[i])
        {
          IntegersShow(items[i], js.items[i]);
        }
      }
    }
  }

  lemma CollectIff(parts: seq<Option<Js>>, js: Js)
    ensures Collect(parts) == Some(js)
       <==> js.JsArray? && |js.items| == |parts| && forall i :: 0 <= i < |parts| ==> parts[i] == Some(js.items[i])
  {
    if js.JsArray? && |js.items| == |parts| && forall i :: 0 <= i < |parts| ==> parts[i] == Some(js.items[i]) {
      assert Collect(parts).value.items == js.items;
    }
  }

  lemma {:induction false} ListShows(read: BigIntReader, item: DataType, value: V.Value, js: Js)
    ensures ProjectList(read, item, value) == Some(js) <==> ShowsList(read, item, value, js)
    decreases item, 2
  {
    hide Project, Collect, Shows;
    if value.Sequence? {
      var items := value.items;
      var parts := seq(|items|, i requires 0 <= i < |items| => Project(read, item, items[i]));
      CollectIff(parts, js);
      if js.JsArray? && |js.items| == |items| {
        forall i | 0 <= i < |items|
          ensures parts[i] == Some(js.items[i]) <==> Shows(read, item, items[i], js.items[i])
        {
          ProjectShows(read, item, items[i], js.items[i]);
        }
      }
    }
  }

  lemma {:induction false} StructShows(read: BigIntReader, fields: seq<DataType>, value: V.Value, js: Js)
    ensures ProjectStruct(read, fields, value) == Some(js) <==> ShowsStruct(read, fields, value, js)
    decreases fields, 2
  {
    hide Project, Collect, Shows;
    if value.Sequence? && |value.items| == |fields| {
      var items := value.items;
      var parts := seq(|fields|, i requires 0 <= i < |fields| => Project(read, fields[i], items[i]));
      CollectIff(parts, js);
      if js.JsArray? && |js.items| == |items| {
        forall i | 0 <= i < |items|
          ensures parts[i] == Some(js.items[i]) <==> Shows(read, fields[i], items[i], js.items[i])
        {
          ProjectShows(read, fields[i], items[i], js.items[i]);
        }
      }
    }
  }

  lemma TypeIdShows(value: V.Value, id: int)
    ensures TypeId(value) == Some(id) <==> IsInteger(value, id) && -128 <= id <= 127
  {
  }

  lemma {:induction false} VariantShows(read: BigIntReader, variant: Variant, value: V.Value, js: Js)
    ensures ProjectVariant(read, variant, value) == Some(js) <==> ShowsVariant(read, variant, value, js)
    decreases variant
  {
    ProjectShows(read, variant.dataType, value, js);
  }

  lemma {:induction false} UnionShows(read: BigIntReader, variants: seq<Variant>, value: V.Value, js: Js)
    ensures ProjectUnion(read, variants, value) == Some(js) <==> ShowsUnion(read, variants, value, js)
    decreases variants
  {
    hide VariantIndex, TypeId, IsInteger, ProjectVariant, ShowsVariant;
    if value.Sequence? && |value.items| == 2 {
      var first := value.items[0];
      var payload := Payload(js);
      if TypeId(first).Some? { TypeIdShows(first, TypeId(first).value); }
      if Tag(js).Some? {
        TaggedIff(Tag(js).value, payload, js);
        TypeIdShows(first, Tag(js).value);
        var index := VariantIndex(variants, Tag(js).value);
        if index.Some? { VariantShows(read, variants[index.value], value.items[1], payload); }
      }
    }
  }

  lemma TaggedIff(id: int, payload: Js, js: Js)
    ensures Tagged(id, payload) == js
       <==> && js.JsObject? && |js.properties| == 2
            && js.properties[0] == Property("typeId", JsNumber(V.Integral(id)))
            && js.properties[1] == Property("value", payload)
  {
    if js.JsObject? && |js.properties| == 2 {
      assert js.properties == [js.properties[0], js.properties[1]];
    }
  }

  /** The number under the first property, if that is what an object holds there. */
  function Tag(js: Js): Option<int> {
    if js.JsObject? && |js.properties| == 2
       && js.properties[0].value.JsNumber? && js.properties[0].value.number.Integral?
    then Some(js.properties[0].value.number.n) else None
  }

  function Payload(js: Js): Js {
    if js.JsObject? && |js.properties| == 2 then js.properties[1].value else js
  }

  lemma EntryShows(read: BigIntReader, fields: seq<DataType>, entry: V.Entry, projected: Option<JsEntry>,
                   shown: JsEntry)
    requires |fields| == 2 && projected == ProjectEntry(read, fields, entry)
    requires forall js :: Project(read, fields[0], entry.key) == Some(js) <==> Shows(read, fields[0], entry.key, js)
    requires forall js :: Project(read, fields[1], entry.value) == Some(js) <==> Shows(read, fields[1], entry.value, js)
    ensures ShowsEntry(read, fields, entry, shown)
       <==> projected.Some? && shown == JsEntry(MapKey(projected.value.key), projected.value.value)
  {
    hide Project, Shows;
  }

  lemma KeysDifferIff(a: Js, b: Js)
    ensures KeysDiffer(MapKey(a), MapKey(b)) <==> !SameKey(a, b)
  {
  }

  lemma {:induction false} MapShows(read: BigIntReader, fields: seq<DataType>, value: V.Value, js: Js)
    requires |fields| == 2
    ensures ProjectMap(read, fields, value) == Some(js) <==> ShowsMap(read, fields, value, js)
    decreases fields, 2
  {
    hide Project, Shows, ProjectEntry, ShowsEntry, KeysDiffer, MapKey, SameKey, ProjectMap;
    if value.Mapping? && js.JsMap? && |value.entries| == |js.entries| {
      var entries := value.entries;
      forall i | 0 <= i < |entries|
        ensures var projected := ProjectEntry(read, fields, entries[i]);
          ShowsEntry(read, fields, entries[i], js.entries[i])
          <==> projected.Some? && js.entries[i] == JsEntry(MapKey(projected.value.key), projected.value.value)
      {
        forall shown ensures Project(read, fields[0], entries[i].key) == Some(shown)
                        <==> Shows(read, fields[0], entries[i].key, shown) {
          ProjectShows(read, fields[0], entries[i].key, shown);
        }
        forall shown ensures Project(read, fields[1], entries[i].value) == Some(shown)
                        <==> Shows(read, fields[1], entries[i].value, shown) {
          ProjectShows(read, fields[1], entries[i].value, shown);
        }
        EntryShows(read, fields, entries[i], ProjectEntry(read, fields, entries[i]), js.entries[i]);
      }
      MapIff(read, fields, value, js);
    } else {
      MapLength(read, fields, value, js);
    }
  }

  lemma MapLength(read: BigIntReader, fields: seq<DataType>, value: V.Value, js: Js)
    requires |fields| == 2
    ensures ProjectMap(read, fields, value) == Some(js) ==>
      value.Mapping? && js.JsMap? && |value.entries| == |js.entries|
  {
    hide Project, ProjectEntry, KeysCollide;
  }

  lemma MapIff(read: BigIntReader, fields: seq<DataType>, value: V.Value, js: Js)
    requires |fields| == 2 && value.Mapping? && js.JsMap? && |value.entries| == |js.entries|
    requires forall i :: 0 <= i < |value.entries| ==>
      var projected := ProjectEntry(read, fields, value.entries[i]);
      ShowsEntry(read, fields, value.entries[i], js.entries[i])
      <==> projected.Some? && js.entries[i] == JsEntry(MapKey(projected.value.key), projected.value.value)
    ensures ProjectMap(read, fields, value) == Some(js) <==> ShowsMap(read, fields, value, js)
  {
    hide Project, Shows, ProjectEntry, ShowsEntry, KeysDiffer, MapKey, SameKey;
    var entries := value.entries;
    if forall i :: 0 <= i < |entries| ==> ProjectEntry(read, fields, entries[i]).Some? {
      var projected := seq(|entries|, i requires 0 <= i < |entries| => ProjectEntry(read, fields, entries[i]).value);
      var keys := seq(|projected|, i requires 0 <= i < |projected| => projected[i].key);
      assert ProjectMap(read, fields, value) == FillMap(projected);
      FillIff(projected, js.entries);
    }
  }

  lemma FillIff(projected: seq<JsEntry>, entries: seq<JsEntry>)
    requires |projected| == |entries|
    ensures FillMap(projected) == Some(JsMap(entries))
       <==> && (forall i :: 0 <= i < |entries| ==> entries[i] == JsEntry(MapKey(projected[i].key), projected[i].value))
            && (forall i, j :: 0 <= i < j < |entries| ==> KeysDiffer(entries[i].key, entries[j].key))
  {
    hide KeysDiffer, MapKey, SameKey;
    var keys := seq(|projected|, i requires 0 <= i < |projected| => projected[i].key);
    var filled := seq(|projected|, i requires 0 <= i < |projected| =>
      JsEntry(MapKey(projected[i].key), projected[i].value));
    forall i, j | 0 <= i < j < |projected|
      ensures KeysDiffer(MapKey(projected[i].key), MapKey(projected[j].key)) <==> !SameKey(keys[i], keys[j])
    {
      KeysDifferIff(projected[i].key, projected[j].key);
    }
    if forall i :: 0 <= i < |entries| ==> entries[i] == JsEntry(MapKey(projected[i].key), projected[i].value) {
      assert filled == entries;
    }
  }

  // ----- Building the JavaScript values -----

  /** What has been collected so far. */
  predicate Collecting(parts: seq<Option<Js>>, output: seq<Js>) {
    |output| <= |parts| && forall i :: 0 <= i < |output| ==> parts[i] == Some(output[i])
  }

  lemma CollectedAll(parts: seq<Option<Js>>, output: seq<Js>)
    requires Collecting(parts, output) && |output| == |parts|
    ensures Collect(parts) == Some(JsArray(output))
  {
    assert Collect(parts).value.items == output;
  }

  lemma CollectFails(parts: seq<Option<Js>>, i: nat)
    requires i < |parts| && parts[i].None?
    ensures Collect(parts).None?
  {
  }

  /** `data_type_to_js`. */
  method DataTypeToJs(read: BigIntReader, dataType: DataType, value: V.Value) returns (projected: Option<Js>)
    ensures projected == Project(read, dataType, value)
    ensures forall js :: projected == Some(js) <==> Shows(read, dataType, value, js)
    ensures projected.Some? && projected.value.JsBoolean? ==> value == V.Bool(projected.value.b)
    ensures projected.Some? && projected.value.JsString? ==> value == V.Str(projected.value.text)
    ensures projected.Some? && projected.value.JsBuffer? ==> value == V.Bytes(projected.value.bytes)
    ensures value.Null? ==> projected == Some(JsNull)
    ensures !value.Null? && projected.Some? ==>
              Hint(dataType).Some? && CategoryOf(projected.value) == Hint(dataType)
    decreases dataType, 1
  {
    hide CategoryOf, ProjectScalar, Shows;
    forall js ensures Project(read, dataType, value) == Some(js) <==> Shows(read, dataType, value, js) {
      ProjectShows(read, dataType, value, js);
    }
    if Project(read, dataType, value).Some? {
      ShownPayload(read, dataType, value, Project(read, dataType, value).value);
    }
    if !value.Null? && Project(read, dataType, value).Some? { HintKeepsItsWord(read, dataType, value); }
    if value.Null? { return Some(JsNull); }
    match dataType
    case Scalar(scalar) => projected := ProjectScalar(read, scalar, value);
    case Interval(unit) => projected := IntervalToJs(unit, value);
    case ListOf(_, item) => projected := SequenceToJs(read, dataType, value);
    case Struct(fields) => projected := StructToJs(read, dataType, value);
    case Union(variants) => projected := UnionToJs(read, dataType, value);
    case Map(entries) => projected := MapToJs(read, dataType, value);
    case Dictionary(inner) => projected := DataTypeToJs(read, inner, value);
    case RunEndEncoded(inner) => projected := DataTypeToJs(read, inner, value);
  }

  /** `integer_tuple_to_js`, and the year-month interval that is one number. */
  method IntervalToJs(unit: V.TimeUnit, value: V.Value) returns (projected: Option<Js>)
    ensures projected == ProjectInterval(unit, value)
    ensures forall js :: projected == Some(js) <==> ShowsInterval(unit, value, js)
  {
    hide ShowsInterval;
    forall js ensures ProjectInterval(unit, value) == Some(js) <==> ShowsInterval(unit, value, js) {
      IntervalShows(unit, value, js);
    }
    if unit.YearMonth? { return Int32Of(value); }
    if !(unit.DayTime? || unit.MonthDayNano?) || !value.Sequence? { return None; }
    var output: seq<Js> := [];
    ghost var parts := seq(|value.items|, i requires 0 <= i < |value.items| => Component(unit, i, value.items[i]));
    for i := 0 to |value.items|
      invariant |output| == i && Collecting(parts, output)
    {
      var part := Component(unit, i, value.items[i]);
      if part.None? {
        CollectFails(parts, i);
        return None;
      }
      output := output + [part.value];
    }
    CollectedAll(parts, output);
    return Some(JsArray(output));
  }

  /** `sequence_to_js`. */
  method SequenceToJs(read: BigIntReader, dataType: DataType, value: V.Value) returns (projected: Option<Js>)
    requires dataType.ListOf? && !value.Null?
    ensures projected == Project(read, dataType, value)
    decreases dataType, 0
  {
    if !value.Sequence? { return None; }
    var output: seq<Js> := [];
    ghost var parts := seq(|value.items|,
        i requires 0 <= i < |value.items| => Project(read, dataType.item, value.items[i]));
    assert Project(read, dataType, value) == Collect(parts);
    hide Project, Collect;
    for i := 0 to |value.items|
      invariant |output| == i && Collecting(parts, output)
    {
      var part := DataTypeToJs(read, dataType.item, value.items[i]);
      if part.None? {
        CollectFails(parts, i);
        return None;
      }
      output := output + [part.value];
    }
    CollectedAll(parts, output);
    return Some(JsArray(output));
  }

  /** `struct_to_js`. */
  method StructToJs(read: BigIntReader, dataType: DataType, value: V.Value) returns (projected: Option<Js>)
    requires dataType.Struct? && !value.Null?
    ensures projected == Project(read, dataType, value)
    decreases dataType, 0
  {
    var fields := dataType.fields;
    if !value.Sequence? || |value.items| != |fields| { return None; }
    var output: seq<Js> := [];
    ghost var parts := seq(|fields|, i requires 0 <= i < |fields| => Project(read, fields[i], value.items[i]));
    assert Project(read, dataType, value) == Collect(parts);
    hide Project, Collect;
    for i := 0 to |fields|
      invariant |output| == i && Collecting(parts, output)
    {
      var part := DataTypeToJs(read, fields[i], value.items[i]);
      if part.None? {
        CollectFails(parts, i);
        return None;
      }
      output := output + [part.value];
    }
    CollectedAll(parts, output);
    return Some(JsArray(output));
  }

  /** `union_to_js`: the selected variant's type id beside its value. */
  method UnionToJs(read: BigIntReader, dataType: DataType, value: V.Value) returns (projected: Option<Js>)
    requires dataType.Union? && !value.Null?
    ensures projected == Project(read, dataType, value)
    ensures projected.Some? <==>
              && value.Sequence? && |value.items| == 2 && TypeId(value.items[0]).Some?
              && exists i :: SelectsVariant(dataType.variants, TypeId(value.items[0]).value, i)
                   && ProjectVariant(read, dataType.variants[i], value.items[1]).Some?
    ensures projected.Some? ==>
              && CategoryOf(projected.value) == Some(ObjectValue)
              && forall i :: SelectsVariant(dataType.variants, TypeId(value.items[0]).value, i) ==>
                   var payload := ProjectVariant(read, dataType.variants[i], value.items[1]);
                   payload.Some? && projected.value == Tagged(TypeId(value.items[0]).value, payload.value)
    decreases dataType, 0
  {
    if !value.Sequence? || |value.items| != 2 { return None; }
    var id := TypeId(value.items[0]);
    if id.None? { return None; }
    var index := VariantIndex(dataType.variants, id.value);
    if index.None? { return None; }
    assert SelectsVariant(dataType.variants, id.value, index.value);
    var variant := dataType.variants[index.value];
    var payload := DataTypeToJs(read, variant.dataType, value.items[1]);
    assert payload == ProjectVariant(read, variant, value.items[1]);
    if payload.None? { return None; }
    return Some(Tagged(id.value, payload.value));
  }

  /** The Map so far: the entries projected so far, no two of whose keys are the same. */
  predicate Filling(projected: seq<JsEntry>, output: seq<JsEntry>) {
    && |output| == |projected|
    && (forall i :: 0 <= i < |output| ==> output[i] == JsEntry(MapKey(projected[i].key), projected[i].value))
    && (forall i, j :: 0 <= i < j < |projected| ==> !SameKey(projected[i].key, projected[j].key))
  }

  /** `Map.prototype.has` on the Map so far. */
  predicate Holds(output: seq<JsEntry>, key: Js) {
    exists i :: 0 <= i < |output| && SameKey(output[i].key, key)
  }

  lemma HoldsProjected(projected: seq<JsEntry>, output: seq<JsEntry>, key: Js)
    requires Filling(projected, output)
    ensures Holds(output, key) <==> exists i :: 0 <= i < |projected| && SameKey(projected[i].key, key)
  {
    if exists i :: 0 <= i < |projected| && SameKey(projected[i].key, key) {
      var i :| 0 <= i < |projected| && SameKey(projected[i].key, key);
      assert SameKey(output[i].key, key);
    }
    if Holds(output, key) {
      var i :| 0 <= i < |output| && SameKey(output[i].key, key);
      assert SameKey(projected[i].key, key);
    }
  }

  lemma FilledAll(projected: seq<JsEntry>, output: seq<JsEntry>)
    requires Filling(projected, output)
    ensures FillMap(projected) == Some(JsMap(output))
  {
    var keys := seq(|projected|, i requires 0 <= i < |projected| => projected[i].key);
    assert !KeysCollide(keys);
    hide KeysCollide;
    assert FillMap(projected).value.entries == output;
  }

  /** A key already held makes the whole Map impossible, whatever comes after it. */
  lemma FillFails(projected: seq<JsEntry>, i: nat, j: nat)
    requires i < j < |projected| && SameKey(projected[i].key, projected[j].key)
    ensures FillMap(projected).None?
  {
    var keys := seq(|projected|, k requires 0 <= k < |projected| => projected[k].key);
    assert SameKey(keys[i], keys[j]);
  }

  lemma EntryFails(read: BigIntReader, fields: seq<DataType>, value: V.Value, i: nat)
    requires |fields| == 2 && value.Mapping? && i < |value.entries|
    requires ProjectEntry(read, fields, value.entries[i]).None?
    ensures ProjectMap(read, fields, value).None?
  {
    hide ProjectEntry, FillMap;
  }

  lemma CollisionFails(read: BigIntReader, fields: seq<DataType>, value: V.Value, i: nat, j: nat)
    requires |fields| == 2 && value.Mapping? && i < j < |value.entries|
    requires Project(read, fields[0], value.entries[i].key).Some?
        && Project(read, fields[0], value.entries[j].key).Some?
    requires SameKey(Project(read, fields[0], value.entries[i].key).value,
        Project(read, fields[0], value.entries[j].key).value)
    ensures ProjectMap(read, fields, value).None?
  {
    hide FillMap, SameKey;
    if ProjectMap(read, fields, value).Some? {
      assert ProjectEntry(read, fields, value.entries[i]).Some? && ProjectEntry(read, fields, value.entries[j]).Some?;
      var projected := seq(|value.entries|,
          k requires 0 <= k < |value.entries| => ProjectEntry(read, fields, value.entries[k]).value);
      FillFails(projected, i, j);
    }
  }

  lemma MapProjects(read: BigIntReader, fields: seq<DataType>, value: V.Value, projected: seq<JsEntry>)
    requires |fields| == 2 && value.Mapping? && |projected| == |value.entries|
    requires forall i :: 0 <= i < |projected| ==> ProjectEntry(read, fields, value.entries[i]) == Some(projected[i])
    ensures ProjectMap(read, fields, value) == FillMap(projected)
  {
    hide ProjectEntry, FillMap;
    var found := seq(|value.entries|, i requires 0 <= i < |value.entries| =>
      ProjectEntry(read, fields, value.entries[i]).value);
    assert found == projected;
  }

  /** `map_to_js`: refused when a key is already there. */
  method MapToJs(read: BigIntReader, dataType: DataType, value: V.Value) returns (result: Option<Js>)
    requires dataType.Map? && !value.Null?
    ensures result == Project(read, dataType, value)
    decreases dataType, 0
  {
    if !value.Mapping? { return None; }
    var entries := dataType.entries;
    if !entries.Struct? || |entries.fields| != 2 { return None; }
    var fields := entries.fields;
    assert Project(read, dataType, value) == ProjectMap(read, fields, value);
    hide Project, ProjectMap, FillMap, SameKey;
    var output: seq<JsEntry> := [];
    ghost var projected: seq<JsEntry> := [];
    for i := 0 to |value.entries|
      invariant |projected| == i && Filling(projected, output)
      invariant forall k :: 0 <= k < i ==> ProjectEntry(read, fields, value.entries[k]) == Some(projected[k])
    {
      var entry := value.entries[i];
      var key := DataTypeToJs(read, fields[0], entry.key);
      if key.None? {
        EntryFails(read, fields, value, i);
        return None;
      }
      HoldsProjected(projected, output, key.value);
      if Holds(output, key.value) {
        ghost var k :| 0 <= k < |projected| && SameKey(projected[k].key, key.value);
        CollisionFails(read, fields, value, k, i);
        return None;
      }
      var item := DataTypeToJs(read, fields[1], entry.value);
      if item.None? {
        EntryFails(read, fields, value, i);
        return None;
      }
      output := output + [JsEntry(MapKey(key.value), item.value)];
      projected := projected + [JsEntry(key.value, item.value)];
    }
    MapProjects(read, fields, value, projected);
    FilledAll(projected, output);
    return Some(JsMap(output));
  }
}
