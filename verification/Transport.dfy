/**
  The transport between native values and JavaScript: `value_to_transport` and its
  helpers in node/src/codec.rs, and `markerShape`, `fromTemporalMarker` and
  `fromTransport` in node/binding.js.

  JSON lacks most of what a value can be, so a value it lacks travels as an object with a
  reserved key, a marker. User data with reserved keys has to be kept apart from those.
 */
module Transport {
  import opened Sequences
  import opened Values

  const JS_SAFE_INTEGER := 9_007_199_254_740_991
  const MAX_DATE_MILLISECONDS := 8_640_000_000_000_000

  // ----- The three shapes of a value on its way -----

  /**
    A JSON string. The payload strings of markers are kept by what they spell: a number
    in decimal, or bytes in base64.
   */
  datatype JsonString =
    | Plain(text: string)
    | Digits(n: int)
    | Base64(bytes: seq<Byte>)

  /** JSON as both sides hold it; the members of an object have no order. */
  datatype Json =
    | JsonNull
    | JsonBool(b: bool)
    | JsonNumber(number: Double)
    | JsonText(text: JsonString)
    | JsonArray(items: seq<Json>)
    | JsonObject(members: map<string, Json>)

  /** The JavaScript values that cross the codec. */
  datatype Js =
    | JsUndefined
    | JsNull
    | JsBoolean(b: bool)
    | JsNumber(number: Double)
    | JsBigInt(n: int)
    | JsString(text: string)
    | JsBuffer(bytes: seq<Byte>)
    | JsDate(milliseconds: int)
    | JsNative(value: Value)
    | JsArray(items: seq<Js>)
    | JsObject(properties: seq<Property>)
    | JsMap(entries: seq<JsEntry>)

  datatype JsEntry = JsEntry(key: Js, value: Js)

  datatype Property = Property(name: string, value: Js)

  // ----- The order of own properties -----

  /**
    The order in which JavaScript enumerates own properties: of an object made from JSON,
    which depends on nothing but the names, and of one whose properties were defined in
    some order, integer names first. All the proofs need is that each is listed once.
   */
  datatype Order = Order(listed: set<string> -> seq<string>, own: seq<string> -> seq<string>)

  predicate Distinct(names: seq<string>) {
    forall i, j :: 0 <= i < j < |names| ==> names[i] != names[j]
  }

  function NameSet(names: seq<string>): set<string> {
    set i | 0 <= i < |names| :: names[i]
  }

  /** Every key, once. */
  predicate Lists(names: seq<string>, keys: set<string>) {
    Distinct(names) && NameSet(names) == keys
  }

  ghost predicate ValidOrder(order: Order) {
    && (forall keys :: Lists(order.listed(keys), keys))
    && (forall names :: Distinct(names) ==> Lists(order.own(names), NameSet(names)))
  }

  /** The names of a set, one at a time. */
  ghost function SomeList(keys: set<string>): (names: seq<string>)
    ensures Lists(names, keys)
  {
    if keys == {} then []
    else
      var name :| name in keys;
      var names := SomeList(keys - {name});
      ListsSnoc(names, keys - {name}, name);
      assert keys - {name} + {name} == keys;
      names + [name]
  }

  /** There are such orders: any list of the names, and the order of definition itself. */
  lemma OrdersExist()
    ensures exists order :: ValidOrder(order)
  {
    ghost var order := Order(keys => SomeList(keys), names => names);
    assert ValidOrder(order);
  }

  /** An object with these properties, in this order. */
  function Arrange(names: seq<string>, properties: map<string, Js>): Js
    requires Lists(names, properties.Keys)
  {
    ListsOnly(names, properties.Keys);
    JsObject(seq(|names|, i requires 0 <= i < |names| => Property(names[i], properties[names[i]])))
  }

  lemma ListsOnly(names: seq<string>, keys: set<string>)
    requires Lists(names, keys)
    ensures forall i :: 0 <= i < |names| ==> names[i] in keys
  {
    forall i | 0 <= i < |names| ensures names[i] in keys {
      assert names[i] in NameSet(names);
    }
  }

  /** An object made from JSON members. */
  function ArrangeListed(order: Order, properties: map<string, Js>): Js
    requires ValidOrder(order)
  {
    Arrange(order.listed(properties.Keys), properties)
  }

  /** An object whose properties were defined in this order. */
  function ArrangeOwn(order: Order, names: seq<string>, properties: map<string, Js>): Js
    requires ValidOrder(order) && Lists(names, properties.Keys)
  {
    Arrange(order.own(names), properties)
  }

  lemma ListsSnoc(names: seq<string>, keys: set<string>, name: string)
    requires Lists(names, keys)
    ensures Lists(if name in keys then names else names + [name], keys + {name})
  {
    ListsOnly(names, keys);
    if name in keys {
      assert keys + {name} == keys;
    } else {
      var longer := names + [name];
      assert forall i :: 0 <= i < |names| ==> longer[i] == names[i];
      assert longer[|names|] == name;
      forall k | k in keys + {name} ensures k in NameSet(longer) {
        if k in keys {
          assert k in NameSet(names);
          var i :| 0 <= i < |names| && names[i] == k;
          assert longer[i] == k;
        } else {
          assert longer[|names|] == k;
        }
      }
      assert NameSet(longer) == keys + {name};
    }
  }

  // ----- Names -----

  datatype Field = TransportField | ProtoField | ValueField | ScaleField | UnitField | ZoneField | DateField

  function Spelling(field: Field): string {
    match field
    case TransportField => "__yggdryl_codec__"
    case ProtoField => "__proto__"
    case ValueField => "value"
    case ScaleField => "scale"
    case UnitField => "unit"
    case ZoneField => "zone"
    case DateField => "date"
  }

  datatype Kind =
    | BytesKind | BigIntKind | FloatKind | MappingKind | ObjectKind
    | DecimalKind | DateKind | TimeKind | DurationKind | TimestampKind

  function KindName(kind: Kind): string {
    match kind
    case BytesKind => "bytes"
    case BigIntKind => "bigint"
    case FloatKind => "float"
    case MappingKind => "mapping"
    case ObjectKind => "object"
    case DecimalKind => "decimal"
    case DateKind => "date"
    case TimeKind => "time"
    case DurationKind => "duration"
    case TimestampKind => "timestamp"
  }

  function UnitName(unit: TimeUnit): string {
    match unit
    case Second => "s"
    case Millisecond => "ms"
    case Microsecond => "us"
    case Nanosecond => "ns"
    case YearMonth => "year_month"
    case DayTime => "day_time"
    case MonthDayNano => "month_day_nano"
  }

  /** `TimeUnit::from_str` on the canonical spellings. */
  function UnitOf(name: string): Option<TimeUnit> {
    if name == "s" then Some(Second)
    else if name == "ms" then Some(Millisecond)
    else if name == "us" then Some(Microsecond)
    else if name == "ns" then Some(Nanosecond)
    else if name == "year_month" then Some(YearMonth)
    else if name == "day_time" then Some(DayTime)
    else if name == "month_day_nano" then Some(MonthDayNano)
    else None
  }

  function FloatSpelling(f: Double): string {
    match f
    case NotANumber => "nan"
    case PositiveInfinity => "infinity"
    case NegativeZero => "-0"
    case _ => "-infinity"
  }

  function FloatOf(name: string): Option<Double> {
    if name == "nan" then Some(NotANumber)
    else if name == "infinity" then Some(PositiveInfinity)
    else if name == "-infinity" then Some(NegativeInfinity)
    else if name == "-0" then Some(NegativeZero)
    else None
  }

  lemma SpellingsDiffer(a: Field, b: Field)
    requires Spelling(a) == Spelling(b)
    ensures a == b
  {
    assert |Spelling(a)| == |Spelling(b)|;
    assert Spelling(a)[0] == Spelling(b)[0];
  }

  lemma KindNamesDiffer(a: Kind, b: Kind)
    requires KindName(a) == KindName(b)
    ensures a == b
  {
    assert |KindName(a)| == |KindName(b)|;
    assert KindName(a)[0] == KindName(b)[0];
  }

  lemma UnitNameReads(unit: TimeUnit)
    ensures UnitOf(UnitName(unit)) == Some(unit)
  {
    assert |UnitName(unit)| == 2 ==>
      UnitName(unit)[0] == if unit == Millisecond then 'm' else if unit == Microsecond then 'u' else 'n';
  }

  lemma FloatSpellingReads(f: Double)
    requires !f.Integral? && !f.Fraction?
    ensures FloatOf(FloatSpelling(f)) == Some(f)
  {
  }

  // ----- Native value to JSON -----

  function Marked(kind: Kind, fields: map<string, Json>): map<string, Json> {
    fields[Spelling(TransportField) := JsonText(Plain(KindName(kind)))]
  }

  /** `marker`: fields under the reserved key and the kind. */
  function Marker(kind: Kind, fields: map<string, Json>): Json {
    JsonObject(Marked(kind, fields))
  }

  /** `integer_transport` and `unsigned_transport`: a number where JavaScript keeps it exactly. */
  function IntegerTransport(n: int): Json {
    if -JS_SAFE_INTEGER <= n <= JS_SAFE_INTEGER then JsonNumber(Integral(n))
    else Marker(BigIntKind, map[Spelling(ValueField) := JsonText(Digits(n))])
  }

  function FloatTransport(f: Double): Json {
    if f.Integral? || f.Fraction? then JsonNumber(f)
    else Marker(FloatKind, map[Spelling(ValueField) := JsonText(Plain(FloatSpelling(f)))])
  }

  function CountFields(count: int, unit: TimeUnit): map<string, Json> {
    map[Spelling(ValueField) := JsonText(Digits(count)), Spelling(UnitField) := JsonText(Plain(UnitName(unit)))]
  }

  /** The milliseconds of a timestamp that is exactly a JavaScript Date. */
  function DateInstant(count: Int64, unit: TimeUnit, zone: Option<string>): Option<int> {
    if zone.Some? then None
    else
      var milliseconds := CountAt(count, unit, Millisecond);
      if milliseconds.Some? && -MAX_DATE_MILLISECONDS <= milliseconds.value <= MAX_DATE_MILLISECONDS
      then Some(milliseconds.value) else None
  }

  function TimestampFields(count: Int64, unit: TimeUnit, zone: Option<string>): map<string, Json> {
    var date := DateInstant(count, unit, zone);
    CountFields(count, unit)
    [Spelling(ZoneField) := if zone.None? then JsonNull else JsonText(Plain(zone.value))]
    [Spelling(DateField) := if date.None? then JsonNull else JsonNumber(Integral(date.value))]
  }

  function TimestampTransport(count: Int64, unit: TimeUnit, zone: Option<string>): Json {
    Marker(TimestampKind, TimestampFields(count, unit, zone))
  }

  function ScalarTransport(v: Value): Json
    requires !v.Sequence? && !v.Mapping?
  {
    match v
    case Null => JsonNull
    case Bool(b) => JsonBool(b)
    case I64(n) => IntegerTransport(n)
    case U64(n) => IntegerTransport(n)
    case I128(n) => IntegerTransport(n)
    case U128(n) => IntegerTransport(n)
    case Float(f) => FloatTransport(f)
    case Str(s) => JsonText(Plain(s))
    case Bytes(bytes) => Marker(BytesKind, map[Spelling(ValueField) := JsonText(Base64(bytes))])
    case Decimal(unscaled, scale) =>
      Marker(DecimalKind, map[Spelling(ValueField) := JsonText(Digits(unscaled)),
                              Spelling(ScaleField) := JsonNumber(Integral(scale))])
    case Date(days) => Marker(DateKind, map[Spelling(ValueField) := JsonNumber(Integral(days))])
    case Time(count, unit) => Marker(TimeKind, CountFields(count, unit))
    case Timestamp(count, unit, zone) => TimestampTransport(count, unit, zone)
    case Duration(count, unit) => Marker(DurationKind, CountFields(count, unit))
  }

  predicate Reserved(key: string) {
    key == Spelling(TransportField) || key == Spelling(ProtoField)
  }

  predicate HasReservedKey(entries: seq<Entry>) {
    exists i :: 0 <= i < |entries| && entries[i].key.Str? && Reserved(entries[i].key.text)
  }

  /** `value_to_transport`: None when the value nests deeper than allowed. */
  function ValueToTransport(v: Value, depth: nat, maxDepth: nat): Option<Json>
    decreases v
  {
    if depth > maxDepth then None
    else
      match v
      case Sequence(items) =>
        if forall i :: 0 <= i < |items| ==> ValueToTransport(items[i], depth + 1, maxDepth).Some? then
          Some(JsonArray(seq(|items|, i requires 0 <= i < |items| =>
            ValueToTransport(items[i], depth + 1, maxDepth).value)))
        else None
      case Mapping(entries) => MappingTransport(entries, depth, maxDepth)
      case _ => Some(ScalarTransport(v))
  }

  /** `mapping_transport`: a plain object if the keys allow it, pairs behind a marker otherwise. */
  function MappingTransport(entries: seq<Entry>, depth: nat, maxDepth: nat): Option<Json>
    decreases entries
  {
    if exists i :: 0 <= i < |entries| && EntryTransport(entries[i], depth + 1, maxDepth).None? then None
    else if AllStrings(entries) && !HasReservedKey(entries) then
      Some(JsonObject(map k | k in StringKeys(entries) ::
        EntryTransport(entries[IndexOf(entries, k)], depth + 1, maxDepth).value.1))
    else
      Some(Marker(if AllStrings(entries) then ObjectKind else MappingKind,
        map[Spelling(ValueField) := JsonArray(seq(|entries|, i requires 0 <= i < |entries| =>
          var pair := EntryTransport(entries[i], depth + 1, maxDepth).value;
          JsonArray([pair.0, pair.1])))]))
  }

  function EntryTransport(entry: Entry, depth: nat, maxDepth: nat): Option<(Json, Json)>
    decreases entry
  {
    var key, item := ValueToTransport(entry.key, depth, maxDepth), ValueToTransport(entry.value, depth, maxDepth);
    if key.Some? && item.Some? then Some((key.value, item.value)) else None
  }

  // ----- JSON to JavaScript -----

  /**
    Handing JSON to JavaScript sets every member as a property. Setting `__proto__` is not
    that: it would replace the prototype of the object and leave no own property behind.
   */
  function Cross(j: Json): Json {
    match j
    case JsonArray(items) => JsonArray(seq(|items|, i requires 0 <= i < |items| => Cross(items[i])))
    case JsonObject(members) => JsonObject(map k | k in members && k != Spelling(ProtoField) :: Cross(members[k]))
    case _ => j
  }

  /** `markerShape`: the kind under the reserved key, and exactly these members. */
  predicate MarkerShape(members: map<string, Json>, kind: Kind, fields: set<Field>) {
    && Spelling(TransportField) in members
    && members[Spelling(TransportField)] == JsonText(Plain(KindName(kind)))
    && members.Keys == {Spelling(TransportField)} + set f | f in fields :: Spelling(f)
  }

  /** A payload that is a number in decimal, as `BigInt(...)` reads it. */
  function ReadDigits(j: Json): Option<int> {
    if j.JsonText? && j.text.Digits? then Some(j.text.n) else None
  }

  function ReadUnit(j: Json): Option<TimeUnit> {
    if j.JsonText? && j.text.Plain? then UnitOf(j.text.text) else None
  }

  function ReadInteger(j: Json): Option<int> {
    if j.JsonNumber? && j.number.Integral? then Some(j.number.n) else None
  }

  function ReadCount(members: map<string, Json>): Option<(Int64, TimeUnit)>
    requires Spelling(ValueField) in members && Spelling(UnitField) in members
  {
    var count, unit := ReadDigits(members[Spelling(ValueField)]), ReadUnit(members[Spelling(UnitField)]);
    if count.Some? && unit.Some? && -0x8000_0000_0000_0000 <= count.value < 0x8000_0000_0000_0000
    then Some((count.value, unit.value)) else None
  }

  /** The kinds `fromTemporalMarker` knows, and the members each has. */
  predicate TemporalShape(members: map<string, Json>) {
    || MarkerShape(members, DecimalKind, {ScaleField, ValueField})
    || MarkerShape(members, DateKind, {ValueField})
    || MarkerShape(members, TimeKind, {UnitField, ValueField})
    || MarkerShape(members, DurationKind, {UnitField, ValueField})
    || MarkerShape(members, TimestampKind, {DateField, UnitField, ValueField, ZoneField})
  }

  /** `fromTemporalMarker`: None when the native constructor would refuse the parts. */
  function FromTemporalMarker(members: map<string, Json>): Option<Js>
    requires TemporalShape(members)
  {
    if MarkerShape(members, DecimalKind, {ScaleField, ValueField}) then
      var unscaled, scale := ReadDigits(members[Spelling(ValueField)]), ReadInteger(members[Spelling(ScaleField)]);
      if unscaled.Some? && scale.Some?
         && -0x8000_0000_0000_0000_0000_0000_0000_0000 <= unscaled.value < 0x8000_0000_0000_0000_0000_0000_0000_0000
      then Some(JsNative(Decimal(unscaled.value, scale.value))) else None
    else if MarkerShape(members, DateKind, {ValueField}) then
      var days := ReadInteger(members[Spelling(ValueField)]);
      if days.Some? then Some(JsNative(Date(days.value))) else None
    else
      var parts := ReadCount(members);
      if parts.None? then None
      else
        var (count, unit) := parts.value;
        if MarkerShape(members, TimeKind, {UnitField, ValueField}) then Some(JsNative(Time(count, unit)))
        else if MarkerShape(members, DurationKind, {UnitField, ValueField}) then Some(JsNative(Duration(count, unit)))
        else
          var date, zone := members[Spelling(DateField)], members[Spelling(ZoneField)];
          if !date.JsonNull? then
            if ReadInteger(date).Some? then Some(JsDate(ReadInteger(date).value)) else None
          else if zone.JsonNull? then Some(JsNative(Timestamp(count, unit, None)))
          else if zone.JsonText? && zone.text.Plain? then Some(JsNative(Timestamp(count, unit, Some(zone.text.text))))
          else None
  }

  /** A Map holds the key +0 where it is given -0. */
  function MapKey(key: Js): Js {
    if key == JsNumber(NegativeZero) then JsNumber(Integral(0)) else key
  }

  predicate Primitive(x: Js) {
    x.JsUndefined? || x.JsNull? || x.JsBoolean? || x.JsNumber? || x.JsBigInt? || x.JsString?
  }

  /** SameValueZero between two keys: primitives by value, and no two fresh objects are the same. */
  predicate SameKey(a: Js, b: Js) {
    Primitive(a) && Primitive(b) && MapKey(a) == MapKey(b)
  }

  predicate KeysCollide(keys: seq<Js>) {
    exists i, j :: 0 <= i < j < |keys| && SameKey(keys[i], keys[j])
  }

  /** Filling a Map pair by pair: None once a key is already there. */
  function FillMap(entries: seq<JsEntry>): Option<Js> {
    if KeysCollide(seq(|entries|, i requires 0 <= i < |entries| => entries[i].key)) then None
    else
      Some(JsMap(seq(|entries|, i requires 0 <= i < |entries| =>
        JsEntry(MapKey(entries[i].key), entries[i].value))))
  }

  /** `fromTransport`: None when it throws. */
  function FromTransport(order: Order, j: Json): Option<Js>
    requires ValidOrder(order)
  {
    match j
    case JsonArray(items) =>
      if forall i :: 0 <= i < |items| ==> FromTransport(order, items[i]).Some? then
        Some(JsArray(seq(|items|, i requires 0 <= i < |items| => FromTransport(order, items[i]).value)))
      else None
    case JsonNull => Some(JsNull)
    case JsonBool(b) => Some(JsBoolean(b))
    case JsonNumber(number) => Some(JsNumber(number))
    case JsonText(text) => if text.Plain? then Some(JsString(text.text)) else None
    case JsonObject(members) =>
      if MarkerShape(members, BytesKind, {ValueField}) then
        var value := members[Spelling(ValueField)];
        if value.JsonText? && value.text.Base64? then Some(JsBuffer(value.text.bytes)) else None
      else if MarkerShape(members, BigIntKind, {ValueField}) then
        var n := ReadDigits(members[Spelling(ValueField)]);
        if n.Some? then Some(JsBigInt(n.value)) else None
      else if MarkerShape(members, FloatKind, {ValueField}) then
        var value := members[Spelling(ValueField)];
        if value.JsonText? && value.text.Plain? && FloatOf(value.text.text).Some?
        then Some(JsNumber(FloatOf(value.text.text).value)) else None
      else if MarkerShape(members, MappingKind, {ValueField}) then
        FromPairs(order, members[Spelling(ValueField)], false)
      else if MarkerShape(members, ObjectKind, {ValueField}) then
        FromPairs(order, members[Spelling(ValueField)], true)
      else if TemporalShape(members) then FromTemporalMarker(members)
      else if forall k :: k in members ==> FromTransport(order, members[k]).Some? then
        Some(ArrangeListed(order, map k | k in members :: FromTransport(order, members[k]).value))
      else None
  }

  /** The pairs of a `mapping` marker fill a Map, those of an `object` marker become properties. */
  function FromPairs(order: Order, pairs: Json, asObject: bool): Option<Js>
    requires ValidOrder(order)
  {
    if !pairs.JsonArray? then None
    else if exists i :: 0 <= i < |pairs.items| && FromPair(order, pairs.items[i]).None? then None
    else
      var entries := seq(|pairs.items|, i requires 0 <= i < |pairs.items| => FromPair(order, pairs.items[i]).value);
      if asObject then DefineAll(order, entries) else FillMap(entries)
  }

  function FromPair(order: Order, pair: Json): Option<JsEntry>
    requires ValidOrder(order)
  {
    if !pair.JsonArray? || |pair.items| != 2 then None
    else
      var key, item := FromTransport(order, pair.items[0]), FromTransport(order, pair.items[1]);
      if key.Some? && item.Some? then Some(JsEntry(key.value, item.value)) else None
  }

  function DefineAll(order: Order, entries: seq<JsEntry>): Option<Js>
    requires ValidOrder(order)
  {
    if forall i :: 0 <= i < |entries| ==> entries[i].key.JsString?
    then Some(ArrangeOwn(order, DefinedOrder(entries), Defined(entries))) else None
  }

  /** Defining properties one by one: a later one replaces an earlier one of the same name. */
  function Defined(entries: seq<JsEntry>): map<string, Js>
    requires forall i :: 0 <= i < |entries| ==> entries[i].key.JsString?
  {
    if entries == [] then map[]
    else
      var n := |entries| - 1;
      Defined(entries[..n])[entries[n].key.text := entries[n].value]
  }

  /** A property has the place it was first defined at. */
  function DefinedOrder(entries: seq<JsEntry>): (names: seq<string>)
    requires forall i :: 0 <= i < |entries| ==> entries[i].key.JsString?
    ensures Lists(names, Defined(entries).Keys)
  {
    if entries == [] then []
    else
      var n := |entries| - 1;
      var names := DefinedOrder(entries[..n]);
      ListsSnoc(names, Defined(entries[..n]).Keys, entries[n].key.text);
      if entries[n].key.text in Defined(entries[..n]) then names else names + [entries[n].key.text]
  }

  // ----- What a value looks like in JavaScript -----

  /** The number an integer is, or the bigint when a number would not keep it exactly. */
  function IntegerView(n: int): Js {
    if -JS_SAFE_INTEGER <= n <= JS_SAFE_INTEGER then JsNumber(Integral(n)) else JsBigInt(n)
  }

  function ScalarView(v: Value): Js
    requires !v.Sequence? && !v.Mapping?
  {
    match v
    case Null => JsNull
    case Bool(b) => JsBoolean(b)
    case I64(n) => IntegerView(n)
    case U64(n) => IntegerView(n)
    case I128(n) => IntegerView(n)
    case U128(n) => IntegerView(n)
    case Float(f) => JsNumber(f)
    case Str(s) => JsString(s)
    case Bytes(bytes) => JsBuffer(bytes)
    case Timestamp(count, unit, zone) =>
      var date := DateInstant(count, unit, zone);
      if date.Some? then JsDate(date.value) else JsNative(v)
    case _ => JsNative(v)
  }

  /**
    The JavaScript view of a value, with no JSON and no markers in between. None where a
    Map would need one key twice: two keys of a mapping whose views are the same key.
   */
  function View(order: Order, v: Value): Option<Js>
    requires ValidOrder(order)
  {
    match v
    case Sequence(items) =>
      if exists i :: 0 <= i < |items| && View(order, items[i]).None? then None
      else Some(JsArray(seq(|items|, i requires 0 <= i < |items| => View(order, items[i]).value)))
    case Mapping(entries) =>
      if exists i :: 0 <= i < |entries| && EntryView(order, entries[i]).None? then None
      else if AllStrings(entries) then
        Some(RecordView(order, entries, map k | k in StringKeys(entries) ::
          EntryView(order, entries[IndexOf(entries, k)]).value.value))
      else FillMap(seq(|entries|, i requires 0 <= i < |entries| => EntryView(order, entries[i]).value))
    case _ => Some(ScalarView(v))
  }

  /** The keys of a string-keyed mapping in the order they first appear. */
  function KeyOrder(entries: seq<Entry>): (names: seq<string>)
    requires AllStrings(entries)
    ensures Lists(names, StringKeys(entries))
  {
    if entries == [] then []
    else
      var n := |entries| - 1;
      var names := KeyOrder(entries[..n]);
      ListsSnoc(names, StringKeys(entries[..n]), entries[n].key.text);
      StringKeysSnoc(entries);
      if entries[n].key.text in StringKeys(entries[..n]) then names else names + [entries[n].key.text]
  }

  lemma StringKeysSnoc(entries: seq<Entry>)
    requires entries != [] && AllStrings(entries)
    ensures StringKeys(entries) == StringKeys(entries[..|entries| - 1]) + {entries[|entries| - 1].key.text}
  {
    var n := |entries| - 1;
    forall k | k in StringKeys(entries) ensures k in StringKeys(entries[..n]) + {entries[n].key.text} {
      var i :| 0 <= i < |entries| && entries[i].key.Str? && entries[i].key.text == k;
      if i < n { assert entries[..n][i].key.text == k; }
    }
    forall k | k in StringKeys(entries[..n]) ensures k in StringKeys(entries) {
      var i :| 0 <= i < n && entries[..n][i].key.Str? && entries[..n][i].key.text == k;
      assert entries[i].key.text == k;
    }
  }

  /**
    The order a string-keyed mapping's keys have in JavaScript. A reserved key makes it
    travel as pairs, and then its own order travels too.
   */
  function RecordOrder(order: Order, entries: seq<Entry>): (names: seq<string>)
    requires ValidOrder(order) && AllStrings(entries)
    ensures Lists(names, StringKeys(entries))
  {
    if HasReservedKey(entries) then order.own(KeyOrder(entries)) else order.listed(StringKeys(entries))
  }

  function RecordView(order: Order, entries: seq<Entry>, properties: map<string, Js>): Js
    requires ValidOrder(order) && AllStrings(entries) && properties.Keys == StringKeys(entries)
  {
    Arrange(RecordOrder(order, entries), properties)
  }

  lemma RecordArranged(order: Order, entries: seq<Entry>, properties: map<string, Js>)
    requires ValidOrder(order) && AllStrings(entries) && properties.Keys == StringKeys(entries)
    ensures !HasReservedKey(entries) ==> RecordView(order, entries, properties) == ArrangeListed(order, properties)
    ensures HasReservedKey(entries) ==>
        RecordView(order, entries, properties) == ArrangeOwn(order, KeyOrder(entries), properties)
  {
    hide ValidOrder, Arrange, HasReservedKey, AllStrings;
  }

  function EntryView(order: Order, entry: Entry): Option<JsEntry>
    requires ValidOrder(order)
  {
    var key, item := View(order, entry.key), View(order, entry.value);
    if key.Some? && item.Some? then Some(JsEntry(key.value, item.value)) else None
  }

  // ----- The depth budget -----

  lemma SequenceCrosses(items: seq<Value>, depth: nat, maxDepth: nat)
    requires depth <= maxDepth
    requires forall i :: 0 <= i < |items| ==>
      (ValueToTransport(items[i], depth + 1, maxDepth).Some? <==> depth + 1 + Height(items[i]) <= maxDepth)
    ensures ValueToTransport(Sequence(items), depth, maxDepth).Some? <==> depth + Height(Sequence(items)) <= maxDepth
  {
    hide Height, MappingTransport, ScalarTransport;
    SequenceHeight(items, maxDepth - depth);
    if items != [] && forall i :: 0 <= i < |items| ==> depth + 1 + Height(items[i]) <= maxDepth {
      assert depth + 1 + Height(items[0]) <= maxDepth;
    }
  }

  predicate EntryShallow(entry: Entry, depth: nat, maxDepth: nat) {
    depth + Height(entry.key) <= maxDepth && depth + Height(entry.value) <= maxDepth
  }

  lemma EntriesCross(entries: seq<Entry>, depth: nat, maxDepth: nat)
    requires depth <= maxDepth
    requires forall i :: 0 <= i < |entries| ==>
      (EntryTransport(entries[i], depth + 1, maxDepth).Some? <==> EntryShallow(entries[i], depth + 1, maxDepth))
    ensures MappingTransport(entries, depth, maxDepth).Some? <==> depth + Height(Mapping(entries)) <= maxDepth
  {
    hide Height, EntryTransport, Marker, HasReservedKey, StringKeys, AllStrings, IndexOf;
    MappingHeight(entries, maxDepth - depth);
    if entries != [] && forall i :: 0 <= i < |entries| ==> EntryShallow(entries[i], depth + 1, maxDepth) {
      assert EntryShallow(entries[0], depth + 1, maxDepth);
    }
  }

  /** A value crosses exactly when it nests no deeper than the budget left. */
  lemma {:induction false} CrossesIffShallow(v: Value, depth: nat, maxDepth: nat)
    ensures ValueToTransport(v, depth, maxDepth).Some? <==> depth + Height(v) <= maxDepth
    decreases v
  {
    if depth <= maxDepth {
      hide ScalarTransport, MappingTransport, Height;
      match v
      case Sequence(items) =>
        forall i | 0 <= i < |items|
          ensures ValueToTransport(items[i], depth + 1, maxDepth).Some? <==> depth + 1 + Height(items[i]) <= maxDepth
        {
          CrossesIffShallow(items[i], depth + 1, maxDepth);
        }
        SequenceCrosses(items, depth, maxDepth);
      case Mapping(entries) =>
        forall i | 0 <= i < |entries|
          ensures EntryTransport(entries[i], depth + 1, maxDepth).Some?
              <==> EntryShallow(entries[i], depth + 1, maxDepth)
        {
          CrossesIffShallow(entries[i].key, depth + 1, maxDepth);
          CrossesIffShallow(entries[i].value, depth + 1, maxDepth);
        }
        EntriesCross(entries, depth, maxDepth);
      case _ => FlatHeight(v);
    }
  }

  lemma FlatHeight(v: Value)
    requires !v.Sequence? && !v.Mapping?
    ensures Height(v) == 0
  {
  }

  // ----- One marker at a time -----

  lemma SpellingsApart()
    ensures forall a, b :: a != b ==> Spelling(a) != Spelling(b)
  {
    hide Spelling;
    forall a, b | a != b ensures Spelling(a) != Spelling(b) {
      if Spelling(a) == Spelling(b) { SpellingsDiffer(a, b); }
    }
  }

  /** An object under the reserved key has one kind. */
  lemma OneKind(members: map<string, Json>, kind: Kind, fields: set<Field>)
    requires MarkerShape(members, kind, fields)
    ensures forall k, fs :: MarkerShape(members, k, fs) ==> k == kind
  {
    hide Spelling, KindName;
    forall k, fs | MarkerShape(members, k, fs) ensures k == kind {
      KindNamesDiffer(k, kind);
    }
  }

  /** Without the reserved key an object is no marker. */
  lemma NoKind(members: map<string, Json>)
    requires Spelling(TransportField) !in members
    ensures forall k, fs :: !MarkerShape(members, k, fs)
  {
    hide Spelling, KindName;
  }

  /** The members of a marker are its fields. */
  predicate HasFields(members: map<string, Json>, fields: set<Field>) {
    TransportField !in fields && members.Keys == set f | f in fields :: Spelling(f)
  }

  lemma MarkerHasShape(kind: Kind, members: map<string, Json>, fields: set<Field>)
    requires HasFields(members, fields)
    ensures MarkerShape(Marked(kind, members), kind, fields)
    ensures forall f :: f in fields ==>
      && Spelling(f) in members && Spelling(f) in Marked(kind, members)
      && Marked(kind, members)[Spelling(f)] == members[Spelling(f)]
  {
    hide Spelling, KindName;
    SpellingsApart();
    forall f | f in fields ensures Spelling(f) in members && Spelling(f) != Spelling(TransportField) {
    }
  }

  lemma BytesDeliver(order: Order, bytes: seq<Byte>)
    requires ValidOrder(order)
    ensures FromTransport(order, ScalarTransport(Bytes(bytes))) == Some(JsBuffer(bytes))
  {
    hide Spelling, KindName;
    var fields := map[Spelling(ValueField) := JsonText(Base64(bytes))];
    MarkerHasShape(BytesKind, fields, {ValueField});
  }

  lemma IntegerDelivers(order: Order, n: int)
    requires ValidOrder(order)
    ensures FromTransport(order, IntegerTransport(n)) == Some(IntegerView(n))
  {
    hide Spelling, KindName;
    if !(-JS_SAFE_INTEGER <= n <= JS_SAFE_INTEGER) {
      var fields := map[Spelling(ValueField) := JsonText(Digits(n))];
      MarkerHasShape(BigIntKind, fields, {ValueField});
      OneKind(Marked(BigIntKind, fields), BigIntKind, {ValueField});
    }
  }

  lemma FloatDelivers(order: Order, f: Double)
    requires ValidOrder(order)
    ensures FromTransport(order, FloatTransport(f)) == Some(JsNumber(f))
  {
    hide Spelling, KindName, FloatSpelling, FloatOf;
    if !f.Integral? && !f.Fraction? {
      var fields := map[Spelling(ValueField) := JsonText(Plain(FloatSpelling(f)))];
      MarkerHasShape(FloatKind, fields, {ValueField});
      OneKind(Marked(FloatKind, fields), FloatKind, {ValueField});
      FloatSpellingReads(f);
    }
  }

  lemma CountReads(members: map<string, Json>, count: Int64, unit: TimeUnit)
    requires Spelling(ValueField) in members && Spelling(UnitField) in members
    requires members[Spelling(ValueField)] == JsonText(Digits(count))
    requires members[Spelling(UnitField)] == JsonText(Plain(UnitName(unit)))
    ensures ReadCount(members) == Some((count, unit))
  {
    hide Spelling, UnitName, UnitOf;
    UnitNameReads(unit);
  }

  predicate TemporalKind(kind: Kind, fields: set<Field>) {
    || (kind == DecimalKind && fields == {ScaleField, ValueField})
    || (kind == DateKind && fields == {ValueField})
    || (kind == TimeKind && fields == {UnitField, ValueField})
    || (kind == DurationKind && fields == {UnitField, ValueField})
    || (kind == TimestampKind && fields == {DateField, UnitField, ValueField, ZoneField})
  }

  lemma TemporalDelivers(order: Order, kind: Kind, fields: set<Field>, members: map<string, Json>)
    requires ValidOrder(order)
    requires TemporalKind(kind, fields) && HasFields(members, fields)
    ensures var marked := Marked(kind, members);
      && MarkerShape(marked, kind, fields)
      && FromTransport(order, Marker(kind, members)) == FromTemporalMarker(marked)
  {
    hide Spelling, KindName, HasFields, FromTemporalMarker;
    MarkerHasShape(kind, members, fields);
    var marked := Marked(kind, members);
    OneKind(marked, kind, fields);
    hide MarkerShape;
  }

  lemma CountReadsBack(kind: Kind, members: map<string, Json>, count: Int64, unit: TimeUnit)
    requires kind == TimeKind || kind == DurationKind
    requires MarkerShape(members, kind, {UnitField, ValueField})
    requires ReadCount(members) == Some((count, unit))
    ensures FromTemporalMarker(members)
         == Some(JsNative(if kind == TimeKind then Time(count, unit) else Duration(count, unit)))
  {
    hide Spelling, KindName, ReadCount;
    OneKind(members, kind, {UnitField, ValueField});
    hide MarkerShape;
  }

  lemma CountDelivers(order: Order, kind: Kind, count: Int64, unit: TimeUnit)
    requires ValidOrder(order)
    requires kind == TimeKind || kind == DurationKind
    ensures FromTransport(order, Marker(kind, CountFields(count, unit)))
         == Some(JsNative(if kind == TimeKind then Time(count, unit) else Duration(count, unit)))
  {
    hide Spelling, KindName, UnitName, ReadCount, FromTransport, FromTemporalMarker, HasFields, Marked;
    SpellingsApart();
    var members := CountFields(count, unit);
    CountFieldsPlain(count, unit);
    TemporalDelivers(order, kind, {UnitField, ValueField}, members);
    MarkerHasShape(kind, members, {UnitField, ValueField});
    CountReads(Marked(kind, members), count, unit);
    CountReadsBack(kind, Marked(kind, members), count, unit);
  }

  lemma DecimalDelivers(order: Order, unscaled: Int128, scale: int)
    requires ValidOrder(order)
    ensures FromTransport(order, ScalarTransport(Decimal(unscaled, scale))) == Some(JsNative(Decimal(unscaled, scale)))
  {
    hide Spelling, KindName, FromTransport;
    SpellingsApart();
    var members := map[Spelling(ValueField) := JsonText(Digits(unscaled)),
                       Spelling(ScaleField) := JsonNumber(Integral(scale))];
    TemporalDelivers(order, DecimalKind, {ScaleField, ValueField}, members);
    MarkerHasShape(DecimalKind, members, {ScaleField, ValueField});
  }

  lemma DateDelivers(order: Order, days: int)
    requires ValidOrder(order)
    ensures FromTransport(order, ScalarTransport(Date(days))) == Some(JsNative(Date(days)))
  {
    hide Spelling, KindName, FromTransport;
    var members := map[Spelling(ValueField) := JsonNumber(Integral(days))];
    TemporalDelivers(order, DateKind, {ValueField}, members);
    MarkerHasShape(DateKind, members, {ValueField});
    OneKind(Marked(DateKind, members), DateKind, {ValueField});
  }

  lemma CountFieldsPlain(count: int, unit: TimeUnit)
    ensures HasFields(CountFields(count, unit), {UnitField, ValueField})
  {
    hide Spelling, UnitName;
    SpellingsApart();
  }

  lemma TimestampFieldsPlain(count: Int64, unit: TimeUnit, zone: Option<string>)
    ensures HasFields(TimestampFields(count, unit, zone), {DateField, UnitField, ValueField, ZoneField})
    ensures TimestampFields(count, unit, zone)[Spelling(ValueField)] == JsonText(Digits(count))
    ensures TimestampFields(count, unit, zone)[Spelling(UnitField)] == JsonText(Plain(UnitName(unit)))
    ensures TimestampFields(count, unit, zone)[Spelling(ZoneField)]
         == if zone.None? then JsonNull else JsonText(Plain(zone.value))
    ensures TimestampFields(count, unit, zone)[Spelling(DateField)]
         == var date := DateInstant(count, unit, zone);
            if date.None? then JsonNull else JsonNumber(Integral(date.value))
  {
    hide Spelling, KindName, UnitName, DateInstant;
    SpellingsApart();
  }

  lemma TimestampReads(members: map<string, Json>, count: Int64, unit: TimeUnit, zone: Option<string>)
    requires MarkerShape(members, TimestampKind, {DateField, UnitField, ValueField, ZoneField})
    requires ReadCount(members) == Some((count, unit))
    requires Spelling(ZoneField) in members && Spelling(DateField) in members
    requires members[Spelling(ZoneField)] == if zone.None? then JsonNull else JsonText(Plain(zone.value))
    requires members[Spelling(DateField)]
          == var date := DateInstant(count, unit, zone);
             if date.None? then JsonNull else JsonNumber(Integral(date.value))
    ensures FromTemporalMarker(members) == Some(ScalarView(Timestamp(count, unit, zone)))
  {
    hide Spelling, KindName, ReadCount, DateInstant;
    OneKind(members, TimestampKind, {DateField, UnitField, ValueField, ZoneField});
    hide MarkerShape;
  }

  lemma TimestampDelivers(order: Order, count: Int64, unit: TimeUnit, zone: Option<string>)
    requires ValidOrder(order)
    ensures FromTransport(order, TimestampTransport(count, unit, zone))
        == Some(ScalarView(Timestamp(count, unit, zone)))
  {
    hide Spelling, KindName, UnitName, ReadCount, DateInstant, HasFields, TimestampFields, FromTransport;
    hide FromTemporalMarker, ScalarView;
    hide MarkerShape, Marked;
    var members := TimestampFields(count, unit, zone);
    var names := {DateField, UnitField, ValueField, ZoneField};
    TimestampFieldsPlain(count, unit, zone);
    TemporalDelivers(order, TimestampKind, names, members);
    MarkerHasShape(TimestampKind, members, names);
    var marked := Marked(TimestampKind, members);
    assert forall f :: f in names ==> marked[Spelling(f)] == members[Spelling(f)];
    assert marked[Spelling(ValueField)] == JsonText(Digits(count));
    assert marked[Spelling(UnitField)] == JsonText(Plain(UnitName(unit)));
    assert marked[Spelling(ZoneField)] == members[Spelling(ZoneField)];
    assert marked[Spelling(DateField)] == members[Spelling(DateField)];
    CountReads(marked, count, unit);
    TimestampReads(marked, count, unit, zone);
  }

  lemma PlainScalarDelivers(order: Order, v: Value)
    requires ValidOrder(order)
    requires v.Null? || v.Bool? || v.Str?
    ensures FromTransport(order, ScalarTransport(v)) == Some(ScalarView(v))
  {
  }

  lemma ScalarDelivers(order: Order, v: Value)
    requires ValidOrder(order)
    requires !v.Sequence? && !v.Mapping?
    ensures FromTransport(order, ScalarTransport(v)) == Some(ScalarView(v))
  {
    hide Spelling, KindName, IntegerTransport, FloatTransport, TimestampTransport, CountFields, Marker;
    hide IntegerView, DateInstant, FromTransport;
    match v
    case I64(n) => IntegerDelivers(order, n);
    case U64(n) => IntegerDelivers(order, n);
    case I128(n) => IntegerDelivers(order, n);
    case U128(n) => IntegerDelivers(order, n);
    case Float(f) => FloatDelivers(order, f);
    case Bytes(bytes) => BytesDeliver(order, bytes);
    case Decimal(unscaled, scale) => DecimalDelivers(order, unscaled, scale);
    case Date(days) => DateDelivers(order, days);
    case Time(count, unit) => CountDelivers(order, TimeKind, count, unit);
    case Timestamp(count, unit, zone) => TimestampDelivers(order, count, unit, zone);
    case Duration(count, unit) => CountDelivers(order, DurationKind, count, unit);
    case _ => PlainScalarDelivers(order, v);
  }

  // ----- Nothing is lost on the crossing -----

  predicate Flat(j: Json) { !j.JsonArray? && !j.JsonObject? }

  lemma MembersCross(members: map<string, Json>)
    requires Spelling(ProtoField) !in members
    requires forall k :: k in members ==> Cross(members[k]) == members[k]
    ensures Cross(JsonObject(members)) == JsonObject(members)
  {
    hide Spelling;
    assert Cross(JsonObject(members)).members == members;
  }

  lemma FlatMarkerCrosses(kind: Kind, members: map<string, Json>)
    requires Spelling(ProtoField) !in members
    requires forall k :: k in members ==> Flat(members[k])
    ensures Cross(Marker(kind, members)) == Marker(kind, members)
  {
    hide Spelling, KindName;
    if Spelling(TransportField) == Spelling(ProtoField) { SpellingsDiffer(TransportField, ProtoField); }
    MembersCross(Marked(kind, members));
  }

  lemma TimestampCrosses(count: Int64, unit: TimeUnit, zone: Option<string>)
    ensures Cross(TimestampTransport(count, unit, zone)) == TimestampTransport(count, unit, zone)
  {
    hide Spelling, KindName, Cross, UnitName, DateInstant;
    SpellingsApart();
    FlatMarkerCrosses(TimestampKind, TimestampFields(count, unit, zone));
  }

  lemma IntegerCrosses(n: int)
    ensures Cross(IntegerTransport(n)) == IntegerTransport(n)
  {
    hide Spelling, KindName;
    SpellingsApart();
    if !(-JS_SAFE_INTEGER <= n <= JS_SAFE_INTEGER) {
      FlatMarkerCrosses(BigIntKind, map[Spelling(ValueField) := JsonText(Digits(n))]);
    }
  }

  lemma FloatCrosses(f: Double)
    ensures Cross(FloatTransport(f)) == FloatTransport(f)
  {
    hide Spelling, KindName, FloatSpelling;
    SpellingsApart();
    if !f.Integral? && !f.Fraction? {
      FlatMarkerCrosses(FloatKind, map[Spelling(ValueField) := JsonText(Plain(FloatSpelling(f)))]);
    }
  }

  lemma CountCrosses(kind: Kind, count: Int64, unit: TimeUnit)
    ensures Cross(Marker(kind, CountFields(count, unit))) == Marker(kind, CountFields(count, unit))
  {
    hide Spelling, KindName, Cross, UnitName;
    SpellingsApart();
    FlatMarkerCrosses(kind, CountFields(count, unit));
  }

  lemma FieldsCross(v: Value)
    requires v.Bytes? || v.Decimal? || v.Date?
    ensures Cross(ScalarTransport(v)) == ScalarTransport(v)
  {
    hide Spelling, KindName, Cross, Marker;
    SpellingsApart();
    match v
    case Bytes(bytes) => FlatMarkerCrosses(BytesKind, map[Spelling(ValueField) := JsonText(Base64(bytes))]);
    case Date(days) => FlatMarkerCrosses(DateKind, map[Spelling(ValueField) := JsonNumber(Integral(days))]);
    case Decimal(unscaled, scale) =>
      FlatMarkerCrosses(DecimalKind, map[Spelling(ValueField) := JsonText(Digits(unscaled)),
                                         Spelling(ScaleField) := JsonNumber(Integral(scale))]);
  }

  lemma ScalarCrosses(v: Value)
    requires !v.Sequence? && !v.Mapping?
    ensures Cross(ScalarTransport(v)) == ScalarTransport(v)
  {
    hide Spelling, KindName, IntegerTransport, FloatTransport, TimestampTransport, CountFields, Marker;
    match v
    case I64(n) => IntegerCrosses(n);
    case U64(n) => IntegerCrosses(n);
    case I128(n) => IntegerCrosses(n);
    case U128(n) => IntegerCrosses(n);
    case Float(f) => FloatCrosses(f);
    case Bytes(_) => FieldsCross(v);
    case Decimal(_, _) => FieldsCross(v);
    case Date(_) => FieldsCross(v);
    case Time(count, unit) => CountCrosses(TimeKind, count, unit);
    case Timestamp(count, unit, zone) => TimestampCrosses(count, unit, zone);
    case Duration(count, unit) => CountCrosses(DurationKind, count, unit);
    case _ =>
  }

  /** The pairs of a mapping behind its marker. */
  function Pairs(entries: seq<Entry>, depth: nat, maxDepth: nat): Json
    requires forall i :: 0 <= i < |entries| ==> EntryTransport(entries[i], depth, maxDepth).Some?
  {
    JsonArray(seq(|entries|, i requires 0 <= i < |entries| =>
      var pair := EntryTransport(entries[i], depth, maxDepth).value;
      JsonArray([pair.0, pair.1])))
  }

  /** The members of a string-keyed mapping as a plain object. */
  function Members(entries: seq<Entry>, depth: nat, maxDepth: nat): map<string, Json>
    requires forall i :: 0 <= i < |entries| ==> EntryTransport(entries[i], depth, maxDepth).Some?
  {
    map k | k in StringKeys(entries) :: EntryTransport(entries[IndexOf(entries, k)], depth, maxDepth).value.1
  }

  lemma MappingShape(entries: seq<Entry>, depth: nat, maxDepth: nat)
    requires MappingTransport(entries, depth, maxDepth).Some?
    ensures forall i :: 0 <= i < |entries| ==> EntryTransport(entries[i], depth + 1, maxDepth).Some?
    ensures MappingTransport(entries, depth, maxDepth).value
         == if AllStrings(entries) && !HasReservedKey(entries) then JsonObject(Members(entries, depth + 1, maxDepth))
            else Marker(if AllStrings(entries) then ObjectKind else MappingKind,
                        map[Spelling(ValueField) := Pairs(entries, depth + 1, maxDepth)])
  {
    hide Spelling, KindName, Marker, EntryTransport, HasReservedKey, AllStrings;
    var pairs := seq(|entries|, i requires 0 <= i < |entries| =>
      var pair := EntryTransport(entries[i], depth + 1, maxDepth).value;
      JsonArray([pair.0, pair.1]));
    if !(AllStrings(entries) && !HasReservedKey(entries)) {
      assert JsonArray(pairs) == Pairs(entries, depth + 1, maxDepth);
    } else {
      assert (map k | k in StringKeys(entries) ::
          EntryTransport(entries[IndexOf(entries, k)], depth + 1, maxDepth).value.1)
        == Members(entries, depth + 1, maxDepth);
    }
  }

  /** Both halves of an entry survive the crossing. */
  predicate EntryCrosses(entry: Entry, depth: nat, maxDepth: nat)
  {
    && EntryTransport(entry, depth, maxDepth).Some?
    && var pair := EntryTransport(entry, depth, maxDepth).value;
    && Cross(pair.0) == pair.0 && Cross(pair.1) == pair.1
  }

  lemma PairsCross(entries: seq<Entry>, depth: nat, maxDepth: nat)
    requires forall i :: 0 <= i < |entries| ==> EntryTransport(entries[i], depth, maxDepth).Some?
    requires forall i :: 0 <= i < |entries| ==> EntryCrosses(entries[i], depth, maxDepth)
    ensures Cross(Pairs(entries, depth, maxDepth)) == Pairs(entries, depth, maxDepth)
  {
    hide EntryTransport;
    var pairs := Pairs(entries, depth, maxDepth).items;
    forall i | 0 <= i < |entries| ensures Cross(pairs[i]) == pairs[i] {
      assert EntryCrosses(entries[i], depth, maxDepth);
      assert Cross(pairs[i]).items == pairs[i].items;
    }
    assert Cross(JsonArray(pairs)).items == pairs;
  }

  lemma RecordCrosses(entries: seq<Entry>, depth: nat, maxDepth: nat)
    requires !HasReservedKey(entries)
    requires forall i :: 0 <= i < |entries| ==> EntryTransport(entries[i], depth, maxDepth).Some?
    requires forall i :: 0 <= i < |entries| ==> EntryCrosses(entries[i], depth, maxDepth)
    ensures Cross(JsonObject(Members(entries, depth, maxDepth))) == JsonObject(Members(entries, depth, maxDepth))
  {
    hide EntryTransport, Spelling, Cross;
    var members := Members(entries, depth, maxDepth);
    forall k | k in members ensures k != Spelling(ProtoField) && Cross(members[k]) == members[k] {
      var i := IndexOf(entries, k);
      assert EntryCrosses(entries[i], depth, maxDepth);
    }
    MembersCross(members);
  }

  lemma PairsMarkerCrosses(kind: Kind, pairs: Json)
    requires Cross(pairs) == pairs
    ensures Cross(Marker(kind, map[Spelling(ValueField) := pairs])) == Marker(kind, map[Spelling(ValueField) := pairs])
  {
    hide Spelling, KindName;
    SpellingsApart();
    MembersCross(Marked(kind, map[Spelling(ValueField) := pairs]));
  }

  lemma ItemsCross(items: seq<Json>)
    requires forall i :: 0 <= i < |items| ==> Cross(items[i]) == items[i]
    ensures Cross(JsonArray(items)) == JsonArray(items)
  {
    assert Cross(JsonArray(items)).items == items;
  }

  /** No object made for the crossing has a `__proto__` member: JavaScript receives all of it. */
  lemma {:induction false} NothingLost(v: Value, depth: nat, maxDepth: nat)
    requires ValueToTransport(v, depth, maxDepth).Some?
    ensures Cross(ValueToTransport(v, depth, maxDepth).value) == ValueToTransport(v, depth, maxDepth).value
    decreases v
  {
    hide Cross, ScalarTransport, Marker, MappingTransport, Pairs, Members, Spelling;
    match v
    case Sequence(items) =>
      forall i | 0 <= i < |items|
        ensures Cross(ValueToTransport(items[i], depth + 1, maxDepth).value)
             == ValueToTransport(items[i], depth + 1, maxDepth).value
      {
        NothingLost(items[i], depth + 1, maxDepth);
      }
      ItemsCross(ValueToTransport(v, depth, maxDepth).value.items);
    case Mapping(entries) =>
      MappingShape(entries, depth, maxDepth);
      forall i | 0 <= i < |entries| ensures EntryCrosses(entries[i], depth + 1, maxDepth) {
        assert EntryTransport(entries[i], depth + 1, maxDepth).Some?;
        NothingLost(entries[i].key, depth + 1, maxDepth);
        NothingLost(entries[i].value, depth + 1, maxDepth);
      }
      if AllStrings(entries) && !HasReservedKey(entries) {
        RecordCrosses(entries, depth + 1, maxDepth);
      } else {
        PairsCross(entries, depth + 1, maxDepth);
        PairsMarkerCrosses(if AllStrings(entries) then ObjectKind else MappingKind,
            Pairs(entries, depth + 1, maxDepth));
      }
    case _ => ScalarCrosses(v);
  }

  // ----- Markers never collide with data -----

  predicate EntryDelivers(order: Order, entry: Entry, depth: nat, maxDepth: nat)
    requires ValidOrder(order)
  {
    && EntryTransport(entry, depth, maxDepth).Some?
    && var pair := EntryTransport(entry, depth, maxDepth).value;
    && FromTransport(order, pair.0) == View(order, entry.key)
    && FromTransport(order, pair.1) == View(order, entry.value)
  }

  predicate DistinctKeys(entries: seq<Entry>) {
    forall i, j :: 0 <= i < j < |entries| ==> CoreName(entries[i].key) != CoreName(entries[j].key)
  }

  lemma IndexOfOnly(entries: seq<Entry>, i: nat)
    requires DistinctKeys(entries) && i < |entries| && entries[i].key.Str?
    ensures IndexOf(entries, entries[i].key.text) == i
  {
    hide IndexOf;
    var j := IndexOf(entries, entries[i].key.text);
    assert CoreName(entries[i].key) == CoreName(entries[j].key);
  }

  lemma ItemsDeliver(order: Order, items: seq<Value>, made: seq<Json>)
    requires ValidOrder(order)
    requires |made| == |items|
    requires forall i :: 0 <= i < |items| ==> FromTransport(order, made[i]) == View(order, items[i])
    ensures FromTransport(order, JsonArray(made)) == View(order, Sequence(items))
  {
    if exists i :: 0 <= i < |items| && View(order, items[i]).None? {
      var i :| 0 <= i < |items| && View(order, items[i]).None?;
      assert FromTransport(order, made[i]).None?;
    } else {
      assert forall i :: 0 <= i < |items| ==> View(order, items[i]).Some?;
      assert FromTransport(order, JsonArray(made)).value.items == View(order, Sequence(items)).value.items;
    }
  }

  lemma NoReserved(entries: seq<Entry>, depth: nat, maxDepth: nat)
    requires forall i :: 0 <= i < |entries| ==> EntryTransport(entries[i], depth, maxDepth).Some?
    requires !HasReservedKey(entries)
    ensures Spelling(TransportField) !in Members(entries, depth, maxDepth)
  {
    hide Spelling, IndexOf, EntryTransport;
  }

  function PropertiesOf(order: Order, members: map<string, Json>): map<string, Js>
    requires ValidOrder(order)
    requires forall k :: k in members ==> FromTransport(order, members[k]).Some?
  {
    map k | k in members :: FromTransport(order, members[k]).value
  }

  lemma PlainObject(order: Order, members: map<string, Json>)
    requires ValidOrder(order)
    requires Spelling(TransportField) !in members
    ensures FromTransport(order, JsonObject(members)).Some?
       <==> forall k :: k in members ==> FromTransport(order, members[k]).Some?
    ensures (forall k :: k in members ==> FromTransport(order, members[k]).Some?) ==>
      FromTransport(order, JsonObject(members)) == Some(ArrangeListed(order, PropertiesOf(order, members)))
  {
    hide Spelling, KindName, ValidOrder, ArrangeListed;
    NoKind(members);
    hide MarkerShape;
    if forall k :: k in members ==> FromTransport(order, members[k]).Some? {
      assert PropertiesOf(order, members) == map k | k in members :: FromTransport(order, members[k]).value;
    }
  }

  predicate AllViewed(order: Order, entries: seq<Entry>)
    requires ValidOrder(order)
  {
    forall i :: 0 <= i < |entries| ==> EntryView(order, entries[i]).Some?
  }

  /** A string key's view is that string, so only the item decides. */
  lemma KeyViewed(order: Order, entry: Entry)
    requires ValidOrder(order)
    requires entry.key.Str?
    ensures EntryView(order, entry)
         == if View(order, entry.value).None? then None
            else Some(JsEntry(JsString(entry.key.text), View(order, entry.value).value))
  {
  }

  /** Each member delivers the item its key has. */
  lemma MembersDeliver(order: Order, entries: seq<Entry>, depth: nat, maxDepth: nat)
    requires ValidOrder(order)
    requires AllStrings(entries) && DistinctKeys(entries)
    requires forall i :: 0 <= i < |entries| ==> EntryTransport(entries[i], depth, maxDepth).Some?
    requires forall i :: 0 <= i < |entries| ==> EntryDelivers(order, entries[i], depth, maxDepth)
    ensures var members := Members(entries, depth, maxDepth);
      && members.Keys == StringKeys(entries)
      && (forall k :: k in members ==>
          FromTransport(order, members[k]) == View(order, entries[IndexOf(entries, k)].value))
      && ((forall k :: k in members ==> FromTransport(order, members[k]).Some?) <==> AllViewed(order, entries))
  {
    hide Spelling, IndexOf, EntryTransport, DistinctKeys, EntryView, FromTransport, View;
    var members := Members(entries, depth, maxDepth);
    forall k | k in members
      ensures FromTransport(order, members[k]) == View(order, entries[IndexOf(entries, k)].value)
      ensures FromTransport(order, members[k]).Some? <==> EntryView(order, entries[IndexOf(entries, k)]).Some?
    {
      assert EntryDelivers(order, entries[IndexOf(entries, k)], depth, maxDepth);
      KeyViewed(order, entries[IndexOf(entries, k)]);
    }
    if !AllViewed(order, entries) {
      var i :| 0 <= i < |entries| && EntryView(order, entries[i]).None?;
      IndexOfOnly(entries, i);
      assert entries[i].key.text in members;
    }
  }

  lemma RecordDelivers(order: Order, entries: seq<Entry>, depth: nat, maxDepth: nat)
    requires ValidOrder(order)
    requires AllStrings(entries) && !HasReservedKey(entries) && DistinctKeys(entries)
    requires forall i :: 0 <= i < |entries| ==> EntryTransport(entries[i], depth, maxDepth).Some?
    requires forall i :: 0 <= i < |entries| ==> EntryDelivers(order, entries[i], depth, maxDepth)
    ensures FromTransport(order, JsonObject(Members(entries, depth, maxDepth))) == View(order, Mapping(entries))
  {
    hide Spelling, IndexOf, EntryTransport, HasReservedKey, DistinctKeys, EntryView, FromTransport;
    hide EntryDelivers, Members, AllStrings, ValidOrder, RecordView, ArrangeListed;
    var members := Members(entries, depth, maxDepth);
    NoReserved(entries, depth, maxDepth);
    PlainObject(order, members);
    MembersDeliver(order, entries, depth, maxDepth);
    if AllViewed(order, entries) {
      RecordViewed(order, entries);
      var record := PropertiesOf(order, members);
      forall k | k in record ensures k in RecordOf(order, entries) && record[k] == RecordOf(order, entries)[k] {
        assert AllStrings(entries);
        KeyViewed(order, entries[IndexOf(entries, k)]);
      }
      assert record == RecordOf(order, entries);
      RecordArranged(order, entries, record);
    } else {
      hide AllViewed;
      UnviewedMapping(order, entries);
    }
  }

  lemma UnviewedMapping(order: Order, entries: seq<Entry>)
    requires ValidOrder(order)
    requires !AllViewed(order, entries)
    ensures View(order, Mapping(entries)).None?
  {
    hide EntryView;
  }

  function RecordOf(order: Order, entries: seq<Entry>): map<string, Js>
    requires ValidOrder(order)
    requires AllViewed(order, entries)
  {
    map k | k in StringKeys(entries) :: EntryView(order, entries[IndexOf(entries, k)]).value.value
  }

  lemma RecordViewed(order: Order, entries: seq<Entry>)
    requires ValidOrder(order)
    requires AllStrings(entries) && AllViewed(order, entries)
    ensures View(order, Mapping(entries)) == Some(RecordView(order, entries, RecordOf(order, entries)))
  {
    hide IndexOf, EntryView, AllStrings, ValidOrder, RecordView;
    assert RecordOf(order, entries) == map k | k in StringKeys(entries) ::
        EntryView(order, entries[IndexOf(entries, k)]).value.value;
  }

  // ----- Pairs -----

  lemma PairDelivers(order: Order, entry: Entry, depth: nat, maxDepth: nat)
    requires ValidOrder(order)
    requires EntryDelivers(order, entry, depth, maxDepth)
    ensures var pair := EntryTransport(entry, depth, maxDepth).value;
      FromPair(order, JsonArray([pair.0, pair.1])) == EntryView(order, entry)
  {
    hide EntryTransport, FromTransport, View;
  }

  lemma PairsDeliver(order: Order, entries: seq<Entry>, depth: nat, maxDepth: nat, asObject: bool)
    requires ValidOrder(order)
    requires forall i :: 0 <= i < |entries| ==> EntryTransport(entries[i], depth, maxDepth).Some?
    requires forall i :: 0 <= i < |entries| ==> EntryDelivers(order, entries[i], depth, maxDepth)
    ensures FromPairs(order, Pairs(entries, depth, maxDepth), asObject)
         == if !AllViewed(order, entries) then None
            else
              var views := seq(|entries|, i requires 0 <= i < |entries| => EntryView(order, entries[i]).value);
              if asObject then DefineAll(order, views) else FillMap(views)
  {
    hide EntryTransport, EntryDelivers, FromTransport, EntryView, FromPair, FillMap, DefineAll;
    var pairs := Pairs(entries, depth, maxDepth).items;
    forall i | 0 <= i < |entries| ensures FromPair(order, pairs[i]) == EntryView(order, entries[i]) {
      PairDelivers(order, entries[i], depth, maxDepth);
    }
    if !AllViewed(order, entries) {
      var i :| 0 <= i < |entries| && EntryView(order, entries[i]).None?;
      assert FromPair(order, pairs[i]).None?;
    } else {
      assert forall i :: 0 <= i < |entries| ==> FromPair(order, pairs[i]).Some?;
      var views := seq(|entries|, i requires 0 <= i < |entries| => EntryView(order, entries[i]).value);
      var made := seq(|pairs|, i requires 0 <= i < |pairs| => FromPair(order, pairs[i]).value);
      assert made == views;
    }
  }

  /** Defining the views of string-keyed entries one by one leaves each key its own item. */
  lemma {:induction false} DefinedIsRecord(order: Order, entries: seq<Entry>, views: seq<JsEntry>)
    requires ValidOrder(order)
    requires AllStrings(entries) && AllViewed(order, entries) && |views| == |entries|
    requires forall i :: 0 <= i < |entries| ==> views[i] == EntryView(order, entries[i]).value
    ensures forall i :: 0 <= i < |views| ==> views[i].key.JsString?
    ensures Defined(views) == RecordOf(order, entries)
    ensures DefinedOrder(views) == KeyOrder(entries)
  {
    hide EntryView;
    forall i | 0 <= i < |views| ensures views[i].key == JsString(entries[i].key.text) {
      KeyViewed(order, entries[i]);
    }
    if entries != [] {
      var n := |entries| - 1;
      DefinedIsRecord(order, entries[..n], views[..n]);
      LastRecord(order, entries);
    }
  }

  lemma LastRecord(order: Order, entries: seq<Entry>)
    requires ValidOrder(order)
    requires entries != [] && AllStrings(entries) && AllViewed(order, entries)
    ensures var n := |entries| - 1;
      AllStrings(entries[..n]) && AllViewed(order, entries[..n])
      && RecordOf(order, entries)
          == RecordOf(order, entries[..n])[entries[n].key.text := EntryView(order, entries[n]).value.value]
  {
    hide EntryView;
    var n := |entries| - 1;
    var before := entries[..n];
    assert StringKeys(entries) == StringKeys(before) + {entries[n].key.text};
    forall k | k in StringKeys(entries) && k != entries[n].key.text
      ensures k in StringKeys(before) && entries[IndexOf(entries, k)] == before[IndexOf(before, k)]
    {
    }
  }

  lemma MarkerPairs(order: Order, kind: Kind, pairs: Json)
    requires ValidOrder(order)
    requires kind == MappingKind || kind == ObjectKind
    ensures FromTransport(order, Marker(kind, map[Spelling(ValueField) := pairs]))
        == FromPairs(order, pairs, kind == ObjectKind)
  {
    hide Spelling, KindName, FromPairs;
    var members := map[Spelling(ValueField) := pairs];
    MarkerHasShape(kind, members, {ValueField});
    OneKind(Marked(kind, members), kind, {ValueField});
    hide MarkerShape;
  }

  lemma MarkedMappingDelivers(order: Order, entries: seq<Entry>, depth: nat, maxDepth: nat)
    requires ValidOrder(order)
    requires forall i :: 0 <= i < |entries| ==> EntryTransport(entries[i], depth, maxDepth).Some?
    requires forall i :: 0 <= i < |entries| ==> EntryDelivers(order, entries[i], depth, maxDepth)
    requires AllStrings(entries) ==> HasReservedKey(entries)
    ensures FromPairs(order, Pairs(entries, depth, maxDepth), AllStrings(entries)) == View(order, Mapping(entries))
  {
    hide EntryTransport, EntryDelivers, FromTransport, FromPairs, FillMap, EntryView, AllStrings;
    PairsDeliver(order, entries, depth, maxDepth, AllStrings(entries));
    if AllViewed(order, entries) {
      var views := seq(|entries|, i requires 0 <= i < |entries| => EntryView(order, entries[i]).value);
      if AllStrings(entries) {
        DefinedIsRecord(order, entries, views);
        RecordViewed(order, entries);
      }
    }
  }

  /**
    Escaping never confuses data with markers: whatever keys a value's mappings have, what
    JavaScript receives is the direct view of the value, at any depth.
   */
  lemma {:induction false} Delivers(order: Order, v: Value, depth: nat, maxDepth: nat)
    requires ValidOrder(order)
    requires UniqueKeys(v)
    requires ValueToTransport(v, depth, maxDepth).Some?
    ensures FromTransport(order, ValueToTransport(v, depth, maxDepth).value) == View(order, v)
    decreases v
  {
    hide FromTransport, View, ScalarTransport, Marker, MappingTransport, Pairs, Members, Spelling;
    hide HasReservedKey, AllStrings;
    match v
    case Sequence(items) =>
      var made := ValueToTransport(v, depth, maxDepth).value.items;
      forall i | 0 <= i < |items| ensures FromTransport(order, made[i]) == View(order, items[i]) {
        Delivers(order, items[i], depth + 1, maxDepth);
      }
      ItemsDeliver(order, items, made);
    case Mapping(entries) =>
      MappingShape(entries, depth, maxDepth);
      forall i | 0 <= i < |entries| ensures EntryDelivers(order, entries[i], depth + 1, maxDepth) {
        assert EntryTransport(entries[i], depth + 1, maxDepth).Some?;
        Delivers(order, entries[i].key, depth + 1, maxDepth);
        Delivers(order, entries[i].value, depth + 1, maxDepth);
      }
      if AllStrings(entries) && !HasReservedKey(entries) {
        RecordDelivers(order, entries, depth + 1, maxDepth);
      } else {
        MarkerPairs(order, if AllStrings(entries) then ObjectKind else MappingKind,
            Pairs(entries, depth + 1, maxDepth));
        MarkedMappingDelivers(order, entries, depth + 1, maxDepth);
      }
    case _ =>
      ScalarDelivers(order, v);
      ScalarViewed(order, v);
  }

  lemma ScalarViewed(order: Order, v: Value)
    requires ValidOrder(order)
    requires !v.Sequence? && !v.Mapping?
    ensures View(order, v) == Some(ScalarView(v))
  {
    hide ScalarView;
  }

  // ----- When a Map cannot hold the keys -----

  /** The number a key becomes, if it becomes one that another key could also be. */
  function NumberOf(v: Value): Option<int> {
    if v.IsInteger() && -JS_SAFE_INTEGER <= v.Integer() <= JS_SAFE_INTEGER then Some(v.Integer())
    else if v == Float(NegativeZero) then Some(0)
    else if v.Float? && v.float.Integral? then Some(v.float.n)
    else None
  }

  /** The name of the value that a primitive key is the view of, when it is no clashing number. */
  function NameOfKey(key: Js): Name
    requires Primitive(key)
  {
    match key
    case JsUndefined => NullName
    case JsNull => NullName
    case JsBoolean(b) => BoolName(b)
    case JsNumber(f) => FloatName(f)
    case JsBigInt(n) => IntegerName(n)
    case JsString(s) => StringName(s)
  }

  lemma KeyTells(v: Value)
    requires !v.Sequence? && !v.Mapping? && Primitive(ScalarView(v))
    ensures NumberOf(v).Some? ==> MapKey(ScalarView(v)) == JsNumber(Integral(NumberOf(v).value))
    ensures NumberOf(v).None? ==>
      var key := MapKey(ScalarView(v));
      ScalarName(v) == NameOfKey(key) && !(key.JsNumber? && key.number.Integral?)
  {
    hide DateInstant;
  }

  /** Different keys become the same Map key only when both are the same number. */
  lemma KeysMeetAsNumbers(order: Order, a: Value, b: Value)
    requires ValidOrder(order)
    requires View(order, a).Some? && View(order, b).Some? && CoreName(a) != CoreName(b)
    ensures SameKey(View(order, a).value, View(order, b).value) <==> NumberOf(a).Some? && NumberOf(a) == NumberOf(b)
  {
    hide View, CoreName, ScalarView, NumberOf, MapKey, ScalarName, NameOfKey;
    ViewKind(order, a);
    ViewKind(order, b);
    NumbersViewed(order, a);
    NumbersViewed(order, b);
    if Primitive(View(order, a).value) && Primitive(View(order, b).value) {
      ScalarNames(a);
      ScalarNames(b);
      KeyTells(a);
      KeyTells(b);
    }
  }

  lemma NumbersViewed(order: Order, v: Value)
    requires ValidOrder(order)
    requires View(order, v).Some?
    ensures NumberOf(v).Some? ==> Primitive(View(order, v).value)
  {
  }

  lemma ScalarNames(v: Value)
    requires !v.Sequence? && !v.Mapping?
    ensures CoreName(v) == ScalarName(v)
  {
    hide ScalarName;
  }

  /** Only a scalar is a primitive in JavaScript. */
  lemma ViewKind(order: Order, v: Value)
    requires ValidOrder(order)
    requires View(order, v).Some?
    ensures v.Sequence? || v.Mapping? ==> !Primitive(View(order, v).value)
    ensures !v.Sequence? && !v.Mapping? ==> View(order, v).value == ScalarView(v)
  {
    hide ScalarView;
  }

  /** Somewhere a mapping has two keys that are one number: an integer and a float, or both zeros. */
  predicate NumberClash(v: Value) {
    match v
    case Sequence(items) => exists i :: 0 <= i < |items| && NumberClash(items[i])
    case Mapping(entries) =>
      || (exists i :: 0 <= i < |entries| && EntryClash(entries[i]))
      || KeyClash(entries)
    case _ => false
  }

  predicate EntryClash(entry: Entry) { NumberClash(entry.key) || NumberClash(entry.value) }

  predicate KeyClash(entries: seq<Entry>) {
    exists i, j :: 0 <= i < j < |entries| && NumberOf(entries[i].key).Some?
        && NumberOf(entries[i].key) == NumberOf(entries[j].key)
  }

  lemma MapFills(order: Order, entries: seq<Entry>)
    requires ValidOrder(order)
    requires AllViewed(order, entries) && DistinctKeys(entries)
    ensures FillMap(seq(|entries|, i requires 0 <= i < |entries| => EntryView(order, entries[i]).value)).None?
        <==> KeyClash(entries)
  {
    hide View, CoreName, NumberOf, SameKey;
    var views := seq(|entries|, i requires 0 <= i < |entries| => EntryView(order, entries[i]).value);
    var keys := seq(|views|, i requires 0 <= i < |views| => views[i].key);
    forall i, j | 0 <= i < j < |entries|
      ensures SameKey(keys[i], keys[j])
         <==> NumberOf(entries[i].key).Some? && NumberOf(entries[i].key) == NumberOf(entries[j].key)
    {
      assert EntryView(order, entries[i]).Some? && EntryView(order, entries[j]).Some?;
      KeysMeetAsNumbers(order, entries[i].key, entries[j].key);
    }
  }

  lemma MappingViewed(order: Order, entries: seq<Entry>)
    requires ValidOrder(order)
    requires DistinctKeys(entries)
    ensures View(order, Mapping(entries)).None? <==> !AllViewed(order, entries) || KeyClash(entries)
  {
    hide EntryView, DistinctKeys, FillMap;
    if AllViewed(order, entries) {
      MapFills(order, entries);
    }
  }

  /** A value has a JavaScript view exactly when no mapping in it has one number as two keys. */
  lemma {:induction false} ViewedIffNoClash(order: Order, v: Value)
    requires ValidOrder(order)
    requires UniqueKeys(v)
    ensures View(order, v).None? <==> NumberClash(v)
    decreases v
  {
    match v
    case Sequence(items) =>
      forall i | 0 <= i < |items| ensures View(order, items[i]).None? <==> NumberClash(items[i]) {
        ViewedIffNoClash(order, items[i]);
      }
    case Mapping(entries) =>
      hide KeyClash, CoreName;
      forall i | 0 <= i < |entries| ensures EntryView(order, entries[i]).None? <==> EntryClash(entries[i]) {
        ViewedIffNoClash(order, entries[i].key);
        ViewedIffNoClash(order, entries[i].value);
      }
      hide EntryView, EntryClash, View;
      MappingViewed(order, entries);
    case _ =>
  }

  /** `asJs`: lower, hand over, raise. None when it throws. */
  function AsJs(order: Order, v: Value, maxDepth: nat): Option<Js>
    requires ValidOrder(order)
  {
    var lowered := ValueToTransport(v, 0, maxDepth);
    if lowered.None? then None else FromTransport(order, Cross(lowered.value))
  }

  /** `asJs` gives the direct view of a value, and throws exactly on depth and on clashing keys. */
  lemma AsJsIsView(order: Order, v: Value, maxDepth: nat)
    requires ValidOrder(order)
    requires UniqueKeys(v)
    ensures AsJs(order, v, maxDepth) == if Height(v) <= maxDepth then View(order, v) else None
    ensures AsJs(order, v, maxDepth).Some? <==> Height(v) <= maxDepth && !NumberClash(v)
  {
    hide ValueToTransport, FromTransport, Cross, View, Height, NumberClash, UniqueKeys;
    CrossesIffShallow(v, 0, maxDepth);
    ViewedIffNoClash(order, v);
    if Height(v) <= maxDepth {
      NothingLost(v, 0, maxDepth);
      Delivers(order, v, 0, maxDepth);
    }
  }

  /** A mapping with the integer 1 and the float 1 as keys: two keys to the core, one to a Map. */
  const NUMBER_KEYS := Mapping([Entry(I64(1), Null), Entry(Float(Integral(1)), Null)])

  lemma NumberKeysThrow(order: Order, maxDepth: nat)
    requires ValidOrder(order)
    ensures UniqueKeys(NUMBER_KEYS) && AsJs(order, NUMBER_KEYS, maxDepth).None?
  {
    hide ValidOrder, AsJs, Height, View, ValueToTransport;
    NumberKeysClash([Entry(I64(1), Null), Entry(Float(Integral(1)), Null)]);
    AsJsIsView(order, NUMBER_KEYS, maxDepth);
  }

  lemma NumberKeysClash(entries: seq<Entry>)
    requires entries == [Entry(I64(1), Null), Entry(Float(Integral(1)), Null)]
    ensures UniqueKeys(Mapping(entries)) && NumberClash(Mapping(entries))
  {
    assert NumberOf(entries[0].key) == Some(1) && NumberOf(entries[1].key) == Some(1);
    assert CoreName(entries[0].key) == IntegerName(1) && CoreName(entries[1].key) == FloatName(Integral(1));
    hide NumberOf, CoreName;
    assert KeyClash(entries);
  }
}
