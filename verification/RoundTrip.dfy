/**
  `fromJs` after `asJs`: the encoder of node/src/codec.rs on the JavaScript values that
  the transport delivers, and what a value keeps on the way there and back.
 */
module RoundTrip {
  import opened Sequences
  import opened Values
  import opened Transport

  // ----- JavaScript to native value -----

  /** `encode_number`: a safe integer is an integer, and everything else, -0 too, a float. */
  function EncodeNumber(f: Double): Value {
    if f.Integral? && -JS_SAFE_INTEGER <= f.n <= JS_SAFE_INTEGER then I64(f.n) else Float(f)
  }

  /** `encode_bigint`: the narrowest integer that holds it, refused beyond 128 bits. */
  function EncodeBigInt(n: int): Option<Value> {
    if -0x8000_0000_0000_0000 <= n < 0x8000_0000_0000_0000 then Some(I64(n))
    else if 0 <= n < 0x1_0000_0000_0000_0000 then Some(U64(n))
    else if -0x8000_0000_0000_0000_0000_0000_0000_0000 <= n < 0x8000_0000_0000_0000_0000_0000_0000_0000
    then Some(I128(n))
    else if 0 <= n < 0x1_0000_0000_0000_0000_0000_0000_0000_0000 then Some(U128(n))
    else None
  }

  /** `encode_date`: the instant in milliseconds; an invalid Date has none. */
  function EncodeDate(milliseconds: int): Option<Value> {
    if -MAX_DATE_MILLISECONDS <= milliseconds <= MAX_DATE_MILLISECONDS
    then Some(Timestamp(milliseconds, Millisecond, None)) else None
  }

  /** `Value::from_mapping`: refused when two keys are equal to the core. */
  function FromMapping(entries: seq<Entry>): Option<Value> {
    if DistinctKeys(entries) then Some(Mapping(entries)) else None
  }

  function EncodeScalar(js: Js): Option<Value>
    requires !js.JsArray? && !js.JsObject? && !js.JsMap?
  {
    match js
    case JsUndefined => Some(Null)
    case JsNull => Some(Null)
    case JsBoolean(b) => Some(Bool(b))
    case JsNumber(f) => Some(EncodeNumber(f))
    case JsBigInt(n) => EncodeBigInt(n)
    case JsString(s) => Some(Str(s))
    case JsBuffer(bytes) => Some(Bytes(bytes))
    case JsDate(milliseconds) => EncodeDate(milliseconds)
    case JsNative(value) => Some(value)
  }

  /**
    `encode_at` on a tree: None when it refuses. A container takes an undefined slot or a
    hole for null without looking any deeper; by itself undefined is only met at depth 0.
   */
  function Encode(js: Js, depth: nat, maxDepth: nat): Option<Value>
    decreases js
  {
    if depth > maxDepth then if js.JsUndefined? then Some(Null) else None
    else
      match js
      case JsArray(items) =>
        if exists i :: 0 <= i < |items| && Encode(items[i], depth + 1, maxDepth).None? then None
        else Some(Sequence(seq(|items|, i requires 0 <= i < |items| => Encode(items[i], depth + 1, maxDepth).value)))
      case JsObject(properties) =>
        if exists i :: 0 <= i < |properties| && EncodeProperty(properties[i], depth + 1, maxDepth).None? then None
        else
          FromMapping(seq(|properties|, i requires 0 <= i < |properties| =>
            EncodeProperty(properties[i], depth + 1, maxDepth).value))
      case JsMap(entries) =>
        if exists i :: 0 <= i < |entries| && EncodeEntry(entries[i], depth + 1, maxDepth).None? then None
        else
          FromMapping(seq(|entries|, i requires 0 <= i < |entries| =>
            EncodeEntry(entries[i], depth + 1, maxDepth).value))
      case _ => EncodeScalar(js)
  }

  function EncodeProperty(property: Property, depth: nat, maxDepth: nat): Option<Entry>
    decreases property
  {
    var item := Encode(property.value, depth, maxDepth);
    if item.Some? then Some(Entry(Str(property.name), item.value)) else None
  }

  function EncodeEntry(entry: JsEntry, depth: nat, maxDepth: nat): Option<Entry>
    decreases entry
  {
    var key, item := Encode(entry.key, depth, maxDepth), Encode(entry.value, depth, maxDepth);
    if key.Some? && item.Some? then Some(Entry(key.value, item.value)) else None
  }

  // ----- What comes back -----

  function NarrowInteger(v: Value): (narrow: Value)
    requires v.IsInteger()
    ensures narrow.IsInteger() && narrow.Integer() == v.Integer()
    ensures EncodeBigInt(v.Integer()) == Some(narrow)
  {
    EncodeBigInt(v.Integer()).value
  }

  /** A scalar as it comes back from JavaScript. */
  function ReturnedScalar(v: Value): Value
    requires !v.Sequence? && !v.Mapping?
  {
    if v.IsInteger() then NarrowInteger(v)
    else
      match v
      case Float(f) => EncodeNumber(f)
      case Timestamp(count, unit, zone) =>
        var date := DateInstant(count, unit, zone);
        if date.Some? then Timestamp(date.value, Millisecond, None) else v
      case _ => v
  }

  /** A value as it comes back from JavaScript, if it does. */
  function Returned(order: Order, v: Value): Value
    requires ValidOrder(order)
    decreases v
  {
    match v
    case Sequence(items) => Sequence(seq(|items|, i requires 0 <= i < |items| => Returned(order, items[i])))
    case Mapping(entries) =>
      if AllStrings(entries) then
        var names := RecordOrder(order, entries);
        ListsOnly(names, StringKeys(entries));
        Mapping(seq(|names|, i requires 0 <= i < |names| =>
          Entry(Str(names[i]), ReturnedEntry(order, entries[IndexOf(entries, names[i])]).value)))
      else Mapping(seq(|entries|, i requires 0 <= i < |entries| => ReturnedEntry(order, entries[i])))
    case _ => ReturnedScalar(v)
  }

  /** A Map turns the key -0 into 0. */
  function ReturnedEntry(order: Order, entry: Entry): Entry
    requires ValidOrder(order)
    decreases entry
  {
    Entry(if entry.key == Float(NegativeZero) then I64(0) else Returned(order, entry.key), Returned(order, entry.value))
  }

  /** The entries of a mapping whose keys are not all strings, as they come back. */
  function ReturnedEntries(order: Order, entries: seq<Entry>): seq<Entry>
    requires ValidOrder(order)
  {
    seq(|entries|, i requires 0 <= i < |entries| => ReturnedEntry(order, entries[i]))
  }

  /** No mapping has two keys that come back as one. */
  predicate StaysDistinct(order: Order, v: Value)
    requires ValidOrder(order)
    decreases v
  {
    match v
    case Sequence(items) => forall i :: 0 <= i < |items| ==> StaysDistinct(order, items[i])
    case Mapping(entries) =>
      && (forall i :: 0 <= i < |entries| ==> EntryStaysDistinct(order, entries[i]))
      && (!AllStrings(entries) ==> DistinctKeys(ReturnedEntries(order, entries)))
    case _ => true
  }

  predicate EntryStaysDistinct(order: Order, entry: Entry)
    requires ValidOrder(order)
    decreases entry
  {
    StaysDistinct(order, entry.key) && StaysDistinct(order, entry.value)
  }

  lemma DateInstantFits(count: Int64, unit: TimeUnit, zone: Option<string>)
    ensures var date := DateInstant(count, unit, zone);
      date.Some? ==>
        && zone.None? && -MAX_DATE_MILLISECONDS <= date.value <= MAX_DATE_MILLISECONDS
        && KeyOf(date.value, Millisecond) == KeyOf(count, unit)
  {
    hide KeyOf;
  }

  lemma ScalarReturns(v: Value)
    requires !v.Sequence? && !v.Mapping?
    ensures var view := ScalarView(v);
      !view.JsArray? && !view.JsObject? && !view.JsMap? && EncodeScalar(view) == Some(ReturnedScalar(v))
  {
    hide DateInstant;
    match v
    case Timestamp(count, unit, zone) => DateInstantFits(count, unit, zone);
    case _ =>
  }

  /** The entries of a string-keyed mapping, as they come back. */
  function ReturnedRecord(order: Order, entries: seq<Entry>): seq<Entry>
    requires ValidOrder(order) && AllStrings(entries)
  {
    var names := RecordOrder(order, entries);
    ListsOnly(names, StringKeys(entries));
    seq(|names|, i requires 0 <= i < |names| =>
      Entry(Str(names[i]), ReturnedEntry(order, entries[IndexOf(entries, names[i])]).value))
  }

  lemma MappingReturns(order: Order, entries: seq<Entry>)
    requires ValidOrder(order)
    ensures Returned(order, Mapping(entries))
         == Mapping(if AllStrings(entries) then ReturnedRecord(order, entries) else ReturnedEntries(order, entries))
  {
    hide AllStrings, ReturnedEntry, IndexOf, RecordOrder, ValidOrder;
    if AllStrings(entries) {
      assert Returned(order, Mapping(entries)).entries == ReturnedRecord(order, entries);
    } else {
      assert Returned(order, Mapping(entries)).entries == ReturnedEntries(order, entries);
    }
  }

  /** Distinct names are distinct keys. */
  lemma RecordDistinct(entries: seq<Entry>, names: seq<string>)
    requires |entries| == |names| && Distinct(names)
    requires forall i :: 0 <= i < |entries| ==> entries[i].key == Str(names[i])
    ensures DistinctKeys(entries)
  {
    forall i, j | 0 <= i < j < |entries| ensures CoreName(entries[i].key) != CoreName(entries[j].key) {
      assert names[i] != names[j];
    }
  }

  predicate ItemReturns(order: Order, v: Value, js: Option<Js>, depth: nat, maxDepth: nat)
    requires ValidOrder(order)
  {
    && js.Some?
    && Encode(js.value, depth, maxDepth) == if StaysDistinct(order, v) then Some(Returned(order, v)) else None
  }

  lemma ItemsReturn(order: Order, items: seq<Value>, views: seq<Js>, depth: nat, maxDepth: nat)
    requires ValidOrder(order) && |views| == |items| && depth <= maxDepth
    requires forall i :: 0 <= i < |items| ==> ItemReturns(order, items[i], Some(views[i]), depth + 1, maxDepth)
    ensures ItemReturns(order, Sequence(items), Some(JsArray(views)), depth, maxDepth)
  {
    hide ValidOrder;
    if forall i :: 0 <= i < |items| ==> StaysDistinct(order, items[i]) {
      assert forall i :: 0 <= i < |items| ==> ItemReturns(order, items[i], Some(views[i]), depth + 1, maxDepth);
      assert Encode(JsArray(views), depth, maxDepth).value.items == Returned(order, Sequence(items)).items;
    } else {
      var i :| 0 <= i < |items| && !StaysDistinct(order, items[i]);
      assert ItemReturns(order, items[i], Some(views[i]), depth + 1, maxDepth);
    }
  }

  // ----- Maps -----

  predicate PairReturns(order: Order, entry: Entry, view: JsEntry, depth: nat, maxDepth: nat)
    requires ValidOrder(order)
  {
    EncodeEntry(view, depth, maxDepth)
    == if EntryStaysDistinct(order, entry) then Some(ReturnedEntry(order, entry)) else None
  }

  lemma PairReturnsFrom(order: Order, entry: Entry, view: JsEntry, depth: nat, maxDepth: nat)
    requires ValidOrder(order) && depth <= maxDepth
    requires EntryView(order, entry) == Some(view)
    requires ItemReturns(order, entry.key, Some(view.key), depth, maxDepth)
    requires ItemReturns(order, entry.value, Some(view.value), depth, maxDepth)
    ensures PairReturns(order, entry, JsEntry(MapKey(view.key), view.value), depth, maxDepth)
  {
    hide ValidOrder;
    NegativeZeroKey(order, entry.key);
    if view.key == JsNumber(NegativeZero) {
      hide View, Returned, StaysDistinct;
      ZeroReturns(order, depth, maxDepth);
    } else {
      hide View, Returned, StaysDistinct, Encode;
    }
  }

  lemma ZeroReturns(order: Order, depth: nat, maxDepth: nat)
    requires ValidOrder(order) && depth <= maxDepth
    ensures Encode(JsNumber(Integral(0)), depth, maxDepth) == Some(I64(0))
    ensures StaysDistinct(order, Float(NegativeZero))
  {
  }

  lemma NegativeZeroKey(order: Order, v: Value)
    requires ValidOrder(order) && View(order, v).Some?
    ensures View(order, v).value == JsNumber(NegativeZero) <==> v == Float(NegativeZero)
  {
    ViewKind(order, v);
    hide View, ValidOrder, DateInstant;
    if !v.Sequence? && !v.Mapping? {
    } else {
      assert !Primitive(View(order, v).value);
    }
  }

  lemma MapReturns(order: Order, entries: seq<Entry>, views: seq<JsEntry>, depth: nat, maxDepth: nat)
    requires ValidOrder(order) && |views| == |entries| && depth <= maxDepth && !AllStrings(entries)
    requires forall i :: 0 <= i < |entries| ==> PairReturns(order, entries[i], views[i], depth + 1, maxDepth)
    ensures ItemReturns(order, Mapping(entries), Some(JsMap(views)), depth, maxDepth)
  {
    hide ValidOrder, ReturnedEntry, EntryStaysDistinct, EncodeEntry, DistinctKeys, AllStrings, IndexOf, RecordOrder;
    MappingReturns(order, entries);
    hide Returned;
    if forall i :: 0 <= i < |entries| ==> EntryStaysDistinct(order, entries[i]) {
      assert forall i :: 0 <= i < |entries| ==> PairReturns(order, entries[i], views[i], depth + 1, maxDepth);
      var made := seq(|views|, i requires 0 <= i < |views| => EncodeEntry(views[i], depth + 1, maxDepth).value);
      assert made == ReturnedEntries(order, entries);
    } else {
      var i :| 0 <= i < |entries| && !EntryStaysDistinct(order, entries[i]);
      assert PairReturns(order, entries[i], views[i], depth + 1, maxDepth);
    }
  }

  // ----- Objects -----

  /** A listed property encodes to the entry that comes back under its name. */
  predicate PropertyReturns(order: Order, entries: seq<Entry>, listed: Property, depth: nat, maxDepth: nat)
    requires ValidOrder(order) && AllStrings(entries) && listed.name in StringKeys(entries)
  {
    var item := entries[IndexOf(entries, listed.name)].value;
    EncodeProperty(listed, depth, maxDepth)
    == if StaysDistinct(order, item) then Some(Entry(Str(listed.name), Returned(order, item))) else None
  }

  lemma PropertyOfItem(order: Order, entries: seq<Entry>, listed: Property, depth: nat, maxDepth: nat)
    requires ValidOrder(order) && AllStrings(entries) && listed.name in StringKeys(entries)
    requires var item := entries[IndexOf(entries, listed.name)].value;
      ItemReturns(order, item, Some(listed.value), depth, maxDepth)
    ensures PropertyReturns(order, entries, listed, depth, maxDepth)
  {
    hide ValidOrder, IndexOf, Encode, Returned, StaysDistinct;
  }

  lemma ArrangedNames(order: Order, entries: seq<Entry>, properties: map<string, Js>)
    requires ValidOrder(order) && AllStrings(entries) && properties.Keys == StringKeys(entries)
    ensures var names, js := RecordOrder(order, entries), RecordView(order, entries, properties);
      && js.JsObject? && |js.properties| == |names|
      && forall i :: 0 <= i < |names| ==>
           names[i] in properties && js.properties[i] == Property(names[i], properties[names[i]])
  {
    hide ValidOrder, RecordOrder;
    ListsOnly(RecordOrder(order, entries), StringKeys(entries));
  }

  lemma PropertiesReturn(order: Order, entries: seq<Entry>, properties: map<string, Js>, depth: nat, maxDepth: nat)
    requires ValidOrder(order) && AllStrings(entries) && properties.Keys == StringKeys(entries)
    requires forall i :: 0 <= i < |entries| ==>
      && entries[i].key.text in properties
      && ItemReturns(order, entries[i].value, Some(properties[entries[i].key.text]), depth, maxDepth)
    ensures var names, js := RecordOrder(order, entries), RecordView(order, entries, properties);
      && js.JsObject? && |js.properties| == |names|
      && forall i :: 0 <= i < |names| ==>
           && js.properties[i].name == names[i] && names[i] in StringKeys(entries)
           && PropertyReturns(order, entries, js.properties[i], depth, maxDepth)
  {
    hide ValidOrder, IndexOf, RecordOrder, RecordView, PropertyReturns, ItemReturns;
    ArrangedNames(order, entries, properties);
    var names := RecordOrder(order, entries);
    var listed := RecordView(order, entries, properties).properties;
    forall i | 0 <= i < |names| ensures PropertyReturns(order, entries, listed[i], depth, maxDepth) {
      var k := IndexOf(entries, names[i]);
      assert ItemReturns(order, entries[k].value, Some(properties[names[i]]), depth, maxDepth);
      PropertyOfItem(order, entries, listed[i], depth, maxDepth);
    }
  }

  lemma RecordReturns(order: Order, entries: seq<Entry>, properties: map<string, Js>, depth: nat, maxDepth: nat)
    requires ValidOrder(order) && depth <= maxDepth && AllStrings(entries) && DistinctKeys(entries)
    requires properties.Keys == StringKeys(entries)
    requires forall i :: 0 <= i < |entries| ==>
      && entries[i].key.text in properties
      && ItemReturns(order, entries[i].value, Some(properties[entries[i].key.text]), depth + 1, maxDepth)
    ensures ItemReturns(order, Mapping(entries), Some(RecordView(order, entries, properties)), depth, maxDepth)
  {
    hide ValidOrder, DistinctKeys, IndexOf, RecordOrder, Encode, Returned, StaysDistinct, RecordView, PropertyReturns;
    MappingReturns(order, entries);
    PropertiesReturn(order, entries, properties, depth + 1, maxDepth);
    RecordStays(order, entries, RecordOrder(order, entries));
    RecordEncodes(order, entries, RecordView(order, entries, properties).properties, depth, maxDepth);
  }

  /** Every entry is listed under its name, and a string key is no obstacle. */
  lemma RecordStays(order: Order, entries: seq<Entry>, names: seq<string>)
    requires ValidOrder(order) && AllStrings(entries) && DistinctKeys(entries) && Lists(names, StringKeys(entries))
    requires forall i :: 0 <= i < |names| ==> names[i] in StringKeys(entries)
    ensures StaysDistinct(order, Mapping(entries))
       <==> forall i :: 0 <= i < |names| ==> StaysDistinct(order, entries[IndexOf(entries, names[i])].value)
  {
    hide ValidOrder, DistinctKeys, IndexOf;
    if forall i :: 0 <= i < |names| ==> StaysDistinct(order, entries[IndexOf(entries, names[i])].value) {
      forall i | 0 <= i < |entries| ensures EntryStaysDistinct(order, entries[i]) {
        assert entries[i].key.text in StringKeys(entries);
        assert entries[i].key.text in NameSet(names);
        var n :| 0 <= n < |names| && names[n] == entries[i].key.text;
        IndexOfOnly(entries, i);
        assert StaysDistinct(order, entries[IndexOf(entries, names[n])].value);
      }
    } else {
      var i :| 0 <= i < |names| && !StaysDistinct(order, entries[IndexOf(entries, names[i])].value);
      assert !EntryStaysDistinct(order, entries[IndexOf(entries, names[i])]);
    }
  }

  lemma RecordEncodes(order: Order, entries: seq<Entry>, listed: seq<Property>, depth: nat, maxDepth: nat)
    requires ValidOrder(order) && depth <= maxDepth && AllStrings(entries)
    requires |listed| == |RecordOrder(order, entries)|
    requires forall i :: 0 <= i < |listed| ==>
      && listed[i].name == RecordOrder(order, entries)[i] && listed[i].name in StringKeys(entries)
      && PropertyReturns(order, entries, listed[i], depth + 1, maxDepth)
    ensures Encode(JsObject(listed), depth, maxDepth)
         == if forall i :: 0 <= i < |listed| ==>
             StaysDistinct(order, entries[IndexOf(entries, RecordOrder(order, entries)[i])].value)
            then Some(Mapping(ReturnedRecord(order, entries))) else None
  {
    hide ValidOrder, IndexOf, RecordOrder, Returned, StaysDistinct, EncodeProperty, DistinctKeys;
    var names := RecordOrder(order, entries);
    if forall i :: 0 <= i < |names| ==> StaysDistinct(order, entries[IndexOf(entries, names[i])].value) {
      var made := seq(|listed|, i requires 0 <= i < |listed| => EncodeProperty(listed[i], depth + 1, maxDepth).value);
      assert made == ReturnedRecord(order, entries);
      RecordDistinct(made, names);
    } else {
      var i :| 0 <= i < |names| && !StaysDistinct(order, entries[IndexOf(entries, names[i])].value);
      assert EncodeProperty(listed[i], depth + 1, maxDepth).None?;
    }
  }

  // ----- There and back -----

  lemma ViewedItems(order: Order, items: seq<Value>)
    requires ValidOrder(order) && View(order, Sequence(items)).Some?
    ensures forall i :: 0 <= i < |items| ==> View(order, items[i]).Some?
    ensures var js := View(order, Sequence(items)).value;
      js.JsArray? && |js.items| == |items| && forall i :: 0 <= i < |items| ==>
          js.items[i] == View(order, items[i]).value
  {
    hide ValidOrder;
  }

  lemma ViewedMap(order: Order, entries: seq<Entry>)
    requires ValidOrder(order) && View(order, Mapping(entries)).Some? && !AllStrings(entries)
    ensures AllViewed(order, entries)
    ensures var js := View(order, Mapping(entries)).value;
      && js.JsMap? && |js.entries| == |entries|
      && forall i :: 0 <= i < |entries| ==>
           js.entries[i] == JsEntry(MapKey(View(order, entries[i].key).value), View(order, entries[i].value).value)
  {
    hide ValidOrder, MapKey, AllStrings, KeysCollide;
  }

  lemma ViewedRecord(order: Order, entries: seq<Entry>)
    requires ValidOrder(order) && View(order, Mapping(entries)).Some? && AllStrings(entries) && DistinctKeys(entries)
    ensures AllViewed(order, entries)
    ensures View(order, Mapping(entries)) == Some(RecordView(order, entries, RecordOf(order, entries)))
    ensures forall i :: 0 <= i < |entries| ==>
      && entries[i].key.text in RecordOf(order, entries)
      && View(order, entries[i].value) == Some(RecordOf(order, entries)[entries[i].key.text])
  {
    hide ValidOrder, IndexOf, DistinctKeys, RecordView, View;
    if !AllViewed(order, entries) {
      UnviewedMapping(order, entries);
    }
    RecordViewed(order, entries);
    forall i | 0 <= i < |entries|
      ensures entries[i].key.text in RecordOf(order, entries)
      ensures View(order, entries[i].value) == Some(RecordOf(order, entries)[entries[i].key.text])
    {
      IndexOfOnly(entries, i);
      assert entries[i].key.text in StringKeys(entries);
      assert EntryView(order, entries[i]).Some?;
    }
  }

  lemma ScalarEncodes(order: Order, v: Value, depth: nat, maxDepth: nat)
    requires ValidOrder(order) && !v.Sequence? && !v.Mapping? && depth <= maxDepth
    ensures ItemReturns(order, v, View(order, v), depth, maxDepth)
  {
    hide ValidOrder;
    ScalarViewed(order, v);
    ScalarReturns(v);
    hide View, ScalarView, ReturnedScalar, EncodeScalar;
  }

  /** Encoding the view of a value gives the value as it comes back, unless two keys come back as one. */
  lemma {:induction false} Returns(order: Order, v: Value, depth: nat, maxDepth: nat)
    requires ValidOrder(order) && UniqueKeys(v) && View(order, v).Some?
    requires depth + Height(v) <= maxDepth
    ensures ItemReturns(order, v, View(order, v), depth, maxDepth)
    decreases v
  {
    hide ValidOrder, View, ItemReturns, Height, AllStrings, MapKey, CoreName, RecordOf;
    match v
    case Sequence(items) =>
      SequenceHeight(items, maxDepth - depth);
      ViewedItems(order, items);
      var views := View(order, v).value.items;
      forall i | 0 <= i < |items| ensures ItemReturns(order, items[i], Some(views[i]), depth + 1, maxDepth) {
        Returns(order, items[i], depth + 1, maxDepth);
      }
      ItemsReturn(order, items, views, depth, maxDepth);
    case Mapping(entries) =>
      MappingHeight(entries, maxDepth - depth);
      if AllStrings(entries) {
        RecordBack(order, entries, depth, maxDepth);
      } else {
        MapBack(order, entries, depth, maxDepth);
      }
    case _ => ScalarEncodes(order, v, depth, maxDepth);
  }

  lemma {:induction false} RecordBack(order: Order, entries: seq<Entry>, depth: nat, maxDepth: nat)
    requires ValidOrder(order) && UniqueKeys(Mapping(entries)) && View(order, Mapping(entries)).Some?
    requires depth + Height(Mapping(entries)) <= maxDepth && AllStrings(entries)
    ensures ItemReturns(order, Mapping(entries), View(order, Mapping(entries)), depth, maxDepth)
    decreases entries
  {
    hide ValidOrder, View, ItemReturns, Height, CoreName, RecordOf, RecordView, StringKeys;
    MappingHeight(entries, maxDepth - depth);
    ViewedRecord(order, entries);
    var properties := RecordOf(order, entries);
    forall i | 0 <= i < |entries|
      ensures ItemReturns(order, entries[i].value, Some(properties[entries[i].key.text]), depth + 1, maxDepth)
    {
      Returns(order, entries[i].value, depth + 1, maxDepth);
    }
    assert properties.Keys == StringKeys(entries) by { RecordKeys(order, entries); }
    RecordReturns(order, entries, properties, depth, maxDepth);
  }

  lemma RecordKeys(order: Order, entries: seq<Entry>)
    requires ValidOrder(order) && AllViewed(order, entries)
    ensures RecordOf(order, entries).Keys == StringKeys(entries)
  {
    hide ValidOrder, IndexOf, EntryView;
  }

  lemma {:induction false} MapBack(order: Order, entries: seq<Entry>, depth: nat, maxDepth: nat)
    requires ValidOrder(order) && UniqueKeys(Mapping(entries)) && View(order, Mapping(entries)).Some?
    requires depth + Height(Mapping(entries)) <= maxDepth && !AllStrings(entries)
    ensures ItemReturns(order, Mapping(entries), View(order, Mapping(entries)), depth, maxDepth)
    decreases entries
  {
    hide ValidOrder, View, ItemReturns, Height, AllStrings, CoreName, MapKey, PairReturns;
    MappingHeight(entries, maxDepth - depth);
    ViewedMap(order, entries);
    var views := View(order, Mapping(entries)).value.entries;
    forall i | 0 <= i < |entries| ensures PairReturns(order, entries[i], views[i], depth + 1, maxDepth) {
      assert EntryView(order, entries[i]).Some?;
      Returns(order, entries[i].key, depth + 1, maxDepth);
      Returns(order, entries[i].value, depth + 1, maxDepth);
      PairReturnsFrom(order, entries[i], EntryView(order, entries[i]).value, depth + 1, maxDepth);
    }
    MapReturns(order, entries, views, depth, maxDepth);
  }

  // ----- What a value keeps -----

  /** No safe integer is held as a float, and no key is the float -0: neither is what JavaScript gives back. */
  predicate NumbersKept(v: Value) {
    match v
    case Float(f) => !(f.Integral? && -JS_SAFE_INTEGER <= f.n <= JS_SAFE_INTEGER)
    case Sequence(items) => forall i :: 0 <= i < |items| ==> NumbersKept(items[i])
    case Mapping(entries) => forall i :: 0 <= i < |entries| ==> EntryKept(entries[i])
    case _ => true
  }

  predicate EntryKept(entry: Entry) {
    entry.key != Float(NegativeZero) && NumbersKept(entry.key) && NumbersKept(entry.value)
  }

  lemma ScalarNamed(v: Value)
    requires !v.Sequence? && !v.Mapping?
    ensures MapName(v) == ScalarName(v)
  {
    hide ScalarName;
  }

  lemma ScalarKept(v: Value)
    requires !v.Sequence? && !v.Mapping?
    ensures var w := ReturnedScalar(v);
      !w.Sequence? && !w.Mapping? && (ScalarName(w) == ScalarName(v) <==> NumbersKept(v))
  {
    hide KeyOf, DateInstant;
    match v
    case Timestamp(count, unit, zone) => DateInstantFits(count, unit, zone);
    case _ =>
  }

  lemma ItemsKept(order: Order, items: seq<Value>)
    requires ValidOrder(order)
    requires forall i :: 0 <= i < |items| ==>
        (MapName(Returned(order, items[i])) == MapName(items[i]) <==> NumbersKept(items[i]))
    ensures MapName(Returned(order, Sequence(items))) == MapName(Sequence(items)) <==> NumbersKept(Sequence(items))
  {
    hide ValidOrder;
    var back := Returned(order, Sequence(items)).items;
    var a, b := MapName(Sequence(back)).items, MapName(Sequence(items)).items;
    assert forall i :: 0 <= i < |items| ==> a[i] == MapName(Returned(order, items[i])) && b[i] == MapName(items[i]);
    if forall i :: 0 <= i < |items| ==> NumbersKept(items[i]) {
      assert a == b;
    }
  }

  lemma ReturnedKey(order: Order, entry: Entry)
    requires ValidOrder(order)
    ensures ReturnedEntry(order, entry).key.Str? <==> entry.key.Str?
  {
    hide ValidOrder;
  }

  lemma PairKept(order: Order, entry: Entry)
    requires ValidOrder(order)
    requires MapName(Returned(order, entry.key)) == MapName(entry.key) <==> NumbersKept(entry.key)
    requires MapName(Returned(order, entry.value)) == MapName(entry.value) <==> NumbersKept(entry.value)
    ensures EntryName(ReturnedEntry(order, entry)) == EntryName(entry) <==> EntryKept(entry)
  {
    hide ValidOrder, Returned, NumbersKept;
    if entry.key == Float(NegativeZero) {
      ScalarNamed(entry.key);
      ScalarNamed(I64(0));
    }
  }

  lemma MapKept(order: Order, entries: seq<Entry>)
    requires ValidOrder(order) && !AllStrings(entries)
    requires forall i :: 0 <= i < |entries| ==>
      (EntryName(ReturnedEntry(order, entries[i])) == EntryName(entries[i]) <==> EntryKept(entries[i]))
    ensures MapName(Returned(order, Mapping(entries))) == MapName(Mapping(entries)) <==> NumbersKept(Mapping(entries))
  {
    hide ValidOrder, ReturnedEntry, EntryName, EntryKept;
    MappingReturns(order, entries);
    hide Returned;
    var back := ReturnedEntries(order, entries);
    var k :| 0 <= k < |entries| && !entries[k].key.Str?;
    ReturnedKey(order, entries[k]);
    assert back[k] == ReturnedEntry(order, entries[k]);
    var a, b := MapName(Mapping(back)).entries, MapName(Mapping(entries)).entries;
    assert forall i :: 0 <= i < |entries| ==>
        a[i] == EntryName(ReturnedEntry(order, entries[i])) && b[i] == EntryName(entries[i]);
    if forall i :: 0 <= i < |entries| ==> EntryKept(entries[i]) {
      assert a == b;
    }
  }

  /** The fields of a mapping given entry by entry under distinct names. */
  lemma FieldsOf(made: seq<Entry>, names: seq<string>)
    requires |made| == |names| && Distinct(names)
    requires forall i :: 0 <= i < |made| ==> made[i].key == Str(names[i])
    ensures AllStrings(made) && StringKeys(made) == NameSet(names)
    ensures forall i :: 0 <= i < |made| ==>
        names[i] in FieldNames(made) && FieldNames(made)[names[i]] == MapName(made[i].value)
  {
    hide IndexOf, MapName;
    RecordDistinct(made, names);
    hide DistinctKeys;
    forall k | k in NameSet(names) ensures k in StringKeys(made) {
      var i :| 0 <= i < |names| && names[i] == k;
      assert made[i].key.text == k;
    }
    forall i | 0 <= i < |made|
      ensures names[i] in FieldNames(made) && FieldNames(made)[names[i]] == MapName(made[i].value)
    {
      IndexOfOnly(made, i);
      assert made[i].key.text in StringKeys(made);
    }
  }

  lemma ReturnedFields(order: Order, entries: seq<Entry>)
    requires ValidOrder(order) && AllStrings(entries)
    ensures AllStrings(ReturnedRecord(order, entries))
    ensures var fields := FieldNames(ReturnedRecord(order, entries));
      && fields.Keys == StringKeys(entries)
      && forall k :: k in StringKeys(entries) ==>
          fields[k] == MapName(Returned(order, entries[IndexOf(entries, k)].value))
  {
    hide ValidOrder, IndexOf, FieldNames, MapName, Returned, AllStrings, RecordOrder;
    var names := RecordOrder(order, entries);
    var made := ReturnedRecord(order, entries);
    ListsOnly(names, StringKeys(entries));
    FieldsOf(made, names);
    forall k | k in StringKeys(entries)
      ensures k in FieldNames(made)
          && FieldNames(made)[k] == MapName(Returned(order, entries[IndexOf(entries, k)].value))
    {
      assert k in NameSet(names);
      var i :| 0 <= i < |names| && names[i] == k;
      assert made[i].value == ReturnedEntry(order, entries[IndexOf(entries, k)]).value;
    }
  }

  lemma FieldAt(entries: seq<Entry>, k: string)
    requires k in StringKeys(entries)
    ensures FieldNames(entries)[k] == MapName(entries[IndexOf(entries, k)].value)
  {
    hide IndexOf, MapName;
  }

  lemma FieldsKept(order: Order, entries: seq<Entry>)
    requires ValidOrder(order) && AllStrings(entries) && DistinctKeys(entries)
    requires forall i :: 0 <= i < |entries| ==>
      (MapName(Returned(order, entries[i].value)) == MapName(entries[i].value) <==> NumbersKept(entries[i].value))
    ensures FieldNames(ReturnedRecord(order, entries)) == FieldNames(entries)
       <==> forall i :: 0 <= i < |entries| ==> NumbersKept(entries[i].value)
  {
    hide ValidOrder, IndexOf, DistinctKeys, NumbersKept, Returned, ReturnedRecord, MapName, FieldNames;
    ReturnedFields(order, entries);
    var a, b := FieldNames(ReturnedRecord(order, entries)), FieldNames(entries);
    if forall i :: 0 <= i < |entries| ==> NumbersKept(entries[i].value) {
      forall k | k in StringKeys(entries) ensures a[k] == b[k] {
        FieldAt(entries, k);
      }
      assert a == b;
    } else {
      var i :| 0 <= i < |entries| && !NumbersKept(entries[i].value);
      IndexOfOnly(entries, i);
      assert entries[i].key.text in StringKeys(entries);
      FieldAt(entries, entries[i].key.text);
      assert a[entries[i].key.text] != b[entries[i].key.text];
    }
  }

  lemma RecordKept(order: Order, entries: seq<Entry>)
    requires ValidOrder(order) && AllStrings(entries) && DistinctKeys(entries)
    requires forall i :: 0 <= i < |entries| ==>
      (MapName(Returned(order, entries[i].value)) == MapName(entries[i].value) <==> NumbersKept(entries[i].value))
    ensures MapName(Returned(order, Mapping(entries))) == MapName(Mapping(entries)) <==> NumbersKept(Mapping(entries))
  {
    hide ValidOrder, IndexOf, DistinctKeys, NumbersKept, AllStrings, FieldNames, MapName, ReturnedRecord, Returned;
    MappingReturns(order, entries);
    ReturnedFields(order, entries);
    FieldsKept(order, entries);
    RecordNumbers(entries);
    RecordNamed(entries);
    RecordNamed(ReturnedRecord(order, entries));
  }

  lemma RecordNamed(entries: seq<Entry>)
    requires AllStrings(entries)
    ensures MapName(Mapping(entries)) == RecordName(FieldNames(entries))
  {
    hide IndexOf;
  }

  lemma RecordNumbers(entries: seq<Entry>)
    requires AllStrings(entries)
    ensures NumbersKept(Mapping(entries)) <==> forall i :: 0 <= i < |entries| ==> NumbersKept(entries[i].value)
  {
    if forall i :: 0 <= i < |entries| ==> NumbersKept(entries[i].value) {
      assert forall i :: 0 <= i < |entries| ==> EntryKept(entries[i]);
    } else {
      var i :| 0 <= i < |entries| && !NumbersKept(entries[i].value);
      assert !EntryKept(entries[i]);
    }
  }

  /**
    What comes back is the same value, with string-keyed mappings as finite maps, exactly
    when its numbers are kept.
   */
  lemma {:induction false} SameIffNumbersKept(order: Order, v: Value)
    requires ValidOrder(order) && UniqueKeys(v)
    ensures MapName(Returned(order, v)) == MapName(v) <==> NumbersKept(v)
    decreases v
  {
    hide ValidOrder, MapName, Returned, NumbersKept, EntryKept, ReturnedEntry, EntryName, AllStrings, CoreName;
    match v
    case Sequence(items) =>
      forall i | 0 <= i < |items|
        ensures MapName(Returned(order, items[i])) == MapName(items[i]) <==> NumbersKept(items[i])
      {
        SameIffNumbersKept(order, items[i]);
      }
      ItemsKept(order, items);
    case Mapping(entries) =>
      forall i | 0 <= i < |entries|
        ensures MapName(Returned(order, entries[i].value)) == MapName(entries[i].value)
            <==> NumbersKept(entries[i].value)
        ensures EntryName(ReturnedEntry(order, entries[i])) == EntryName(entries[i]) <==> EntryKept(entries[i])
      {
        SameIffNumbersKept(order, entries[i].key);
        SameIffNumbersKept(order, entries[i].value);
        PairKept(order, entries[i]);
      }
      if AllStrings(entries) { RecordKept(order, entries); } else { MapKept(order, entries); }
    case _ =>
      ScalarKept(v);
      ReturnedScalarIs(order, v);
      ScalarNamed(v);
      ScalarNamed(ReturnedScalar(v));
  }

  lemma ReturnedScalarIs(order: Order, v: Value)
    requires ValidOrder(order) && !v.Sequence? && !v.Mapping?
    ensures Returned(order, v) == ReturnedScalar(v)
  {
    hide ValidOrder, ReturnedScalar;
  }

  // ----- When keys stay distinct -----

  /** In every mapping whose keys are not all strings, no two keys are equal as finite maps. */
  predicate DistinctNames(v: Value) {
    match v
    case Sequence(items) => forall i :: 0 <= i < |items| ==> DistinctNames(items[i])
    case Mapping(entries) =>
      && (forall i :: 0 <= i < |entries| ==> EntryDistinctNames(entries[i]))
      && (!AllStrings(entries) ==> NamesDiffer(entries))
    case _ => true
  }

  predicate EntryDistinctNames(entry: Entry) { DistinctNames(entry.key) && DistinctNames(entry.value) }

  predicate NamesDiffer(entries: seq<Entry>) {
    forall i, j :: 0 <= i < j < |entries| ==> MapName(entries[i].key) != MapName(entries[j].key)
  }

  /** No string-keyed mapping in the value has a reserved key. */
  predicate Unreserved(v: Value) {
    match v
    case Sequence(items) => forall i :: 0 <= i < |items| ==> Unreserved(items[i])
    case Mapping(entries) =>
      && (forall i :: 0 <= i < |entries| ==> EntryUnreserved(entries[i]))
      && (AllStrings(entries) ==> !HasReservedKey(entries))
    case _ => true
  }

  predicate EntryUnreserved(entry: Entry) { Unreserved(entry.key) && Unreserved(entry.value) }

  lemma CoreShapes(a: Value, b: Value)
    requires CoreName(a) == CoreName(b)
    ensures a.Sequence? <==> b.Sequence?
    ensures a.Mapping? <==> b.Mapping?
    ensures !a.Sequence? && !a.Mapping? ==> ScalarName(a) == ScalarName(b)
  {
    hide KeyOf, DecimalNumber;
  }

  lemma CoreItems(a: seq<Value>, b: seq<Value>)
    requires CoreName(Sequence(a)) == CoreName(Sequence(b))
    ensures |a| == |b| && forall i :: 0 <= i < |a| ==> CoreName(a[i]) == CoreName(b[i])
  {
    var x, y := CoreName(Sequence(a)).items, CoreName(Sequence(b)).items;
    assert |x| == |a| && |y| == |b|;
    assert forall i :: 0 <= i < |a| ==> x[i] == CoreName(a[i]);
    assert forall i :: 0 <= i < |b| ==> y[i] == CoreName(b[i]);
  }

  lemma CoreEntries(a: seq<Entry>, b: seq<Entry>)
    requires CoreName(Mapping(a)) == CoreName(Mapping(b))
    ensures |a| == |b|
    ensures forall i :: 0 <= i < |a| ==>
        CoreName(a[i].key) == CoreName(b[i].key) && CoreName(a[i].value) == CoreName(b[i].value)
  {
    var x, y := CoreName(Mapping(a)).entries, CoreName(Mapping(b)).entries;
    assert |x| == |a| && |y| == |b|;
    assert forall i :: 0 <= i < |a| ==> x[i] == NameEntry(CoreName(a[i].key), CoreName(a[i].value));
    assert forall i :: 0 <= i < |b| ==> y[i] == NameEntry(CoreName(b[i].key), CoreName(b[i].value));
  }

  lemma SameItems(a: seq<Value>, b: seq<Value>)
    requires |a| == |b| && forall i :: 0 <= i < |a| ==> MapName(a[i]) == MapName(b[i])
    ensures MapName(Sequence(a)) == MapName(Sequence(b))
  {
    assert MapName(Sequence(a)).items == MapName(Sequence(b)).items;
  }

  lemma SameKeys(a: seq<Entry>, b: seq<Entry>)
    requires |a| == |b| && forall i :: 0 <= i < |a| ==> CoreName(a[i].key) == CoreName(b[i].key)
    ensures forall i :: 0 <= i < |a| ==> (a[i].key.Str? <==> b[i].key.Str?) && (a[i].key.Str? ==> a[i].key == b[i].key)
    ensures AllStrings(a) <==> AllStrings(b)
    ensures StringKeys(a) == StringKeys(b)
  {
    forall i | 0 <= i < |a| ensures (a[i].key.Str? <==> b[i].key.Str?) && (a[i].key.Str? ==> a[i].key == b[i].key) {
      KeyTold(a[i].key, b[i].key);
    }
    hide CoreName;
  }

  lemma KeyTold(a: Value, b: Value)
    requires CoreName(a) == CoreName(b)
    ensures (a.Str? <==> b.Str?) && (a.Str? ==> a == b)
  {
    hide KeyOf, DecimalNumber;
  }

  lemma {:induction false} SameIndex(a: seq<Entry>, b: seq<Entry>, k: string)
    requires |a| == |b|
    requires forall i :: 0 <= i < |a| ==> (a[i].key.Str? <==> b[i].key.Str?) && (a[i].key.Str? ==> a[i].key == b[i].key)
    requires exists i :: 0 <= i < |a| && a[i].key == Str(k)
    ensures exists i :: 0 <= i < |b| && b[i].key == Str(k)
    ensures IndexOf(a, k) == IndexOf(b, k)
  {
    var i :| 0 <= i < |a| && a[i].key == Str(k);
    assert b[i].key == Str(k);
    var n := |a| - 1;
    if a[n].key != Str(k) {
      assert a[..n][i].key == Str(k);
      assert forall j :: 0 <= j < n ==> a[..n][j] == a[j] && b[..n][j] == b[j];
      SameIndex(a[..n], b[..n], k);
    }
  }

  lemma SameRecords(a: seq<Entry>, b: seq<Entry>)
    requires |a| == |b| && AllStrings(a) && AllStrings(b)
    requires forall i :: 0 <= i < |a| ==> a[i].key == b[i].key && MapName(a[i].value) == MapName(b[i].value)
    ensures MapName(Mapping(a)) == MapName(Mapping(b))
  {
    hide IndexOf, FieldNames, MapName;
    RecordNamed(a);
    RecordNamed(b);
    assert StringKeys(a) == StringKeys(b);
    forall k | k in StringKeys(a) ensures FieldNames(a)[k] == FieldNames(b)[k] {
      FieldAt(a, k);
      FieldAt(b, k);
      SameIndex(a, b, k);
    }
    assert FieldNames(a) == FieldNames(b);
  }

  lemma SameMappings(a: seq<Entry>, b: seq<Entry>)
    requires |a| == |b| && !AllStrings(a) && !AllStrings(b)
    requires forall i :: 0 <= i < |a| ==>
        MapName(a[i].key) == MapName(b[i].key) && MapName(a[i].value) == MapName(b[i].value)
    ensures MapName(Mapping(a)) == MapName(Mapping(b))
  {
    hide AllStrings;
    assert MapName(Mapping(a)).entries == MapName(Mapping(b)).entries;
  }

  /** What the core finds equal is equal as finite maps. */
  lemma {:induction false} CoreTellsMap(a: Value, b: Value)
    requires CoreName(a) == CoreName(b)
    ensures MapName(a) == MapName(b)
    decreases a
  {
    CoreShapes(a, b);
    hide CoreName, MapName, AllStrings, ScalarName, StringKeys;
    if a.Sequence? {
      CoreItems(a.items, b.items);
      forall i | 0 <= i < |a.items| ensures MapName(a.items[i]) == MapName(b.items[i]) {
        CoreTellsMap(a.items[i], b.items[i]);
      }
      SameItems(a.items, b.items);
    } else if a.Mapping? {
      CoreEntries(a.entries, b.entries);
      SameKeys(a.entries, b.entries);
      forall i | 0 <= i < |a.entries|
        ensures MapName(a.entries[i].key) == MapName(b.entries[i].key)
        ensures MapName(a.entries[i].value) == MapName(b.entries[i].value)
      {
        CoreTellsMap(a.entries[i].key, b.entries[i].key);
        CoreTellsMap(a.entries[i].value, b.entries[i].value);
      }
      MappingsTold(a.entries, b.entries);
    } else {
      ScalarNamed(a);
      ScalarNamed(b);
    }
  }

  lemma MappingsTold(a: seq<Entry>, b: seq<Entry>)
    requires |a| == |b| && (AllStrings(a) <==> AllStrings(b))
    requires forall i :: 0 <= i < |a| ==> a[i].key.Str? ==> a[i].key == b[i].key
    requires forall i :: 0 <= i < |a| ==> MapName(a[i].key) == MapName(b[i].key)
    requires forall i :: 0 <= i < |a| ==> MapName(a[i].value) == MapName(b[i].value)
    ensures MapName(Mapping(a)) == MapName(Mapping(b))
  {
    hide MapName;
    if AllStrings(a) { SameRecords(a, b); } else { SameMappings(a, b); }
  }

  // ----- Equal as finite maps, and so the same on the way back -----

  lemma MapShapes(a: Value, b: Value)
    requires MapName(a) == MapName(b)
    ensures a.Sequence? <==> b.Sequence?
    ensures a.Mapping? <==> b.Mapping?
    ensures a.Mapping? ==> (AllStrings(a.entries) <==> AllStrings(b.entries))
    ensures !a.Sequence? && !a.Mapping? ==> ScalarName(a) == ScalarName(b)
  {
    hide KeyOf, DecimalNumber, AllStrings, FieldNames;
  }

  lemma MapItems(a: seq<Value>, b: seq<Value>)
    requires MapName(Sequence(a)) == MapName(Sequence(b))
    ensures |a| == |b| && forall i :: 0 <= i < |a| ==> MapName(a[i]) == MapName(b[i])
  {
    var x, y := MapName(Sequence(a)).items, MapName(Sequence(b)).items;
    assert |x| == |a| && |y| == |b|;
    assert forall i :: 0 <= i < |a| ==> x[i] == MapName(a[i]);
    assert forall i :: 0 <= i < |b| ==> y[i] == MapName(b[i]);
  }

  lemma MapEntries(a: seq<Entry>, b: seq<Entry>)
    requires MapName(Mapping(a)) == MapName(Mapping(b)) && !AllStrings(a) && !AllStrings(b)
    ensures |a| == |b|
    ensures forall i :: 0 <= i < |a| ==>
        MapName(a[i].key) == MapName(b[i].key) && MapName(a[i].value) == MapName(b[i].value)
  {
    hide AllStrings;
    var x, y := MapName(Mapping(a)).entries, MapName(Mapping(b)).entries;
    assert |x| == |a| && |y| == |b|;
    forall i | 0 <= i < |a|
      ensures MapName(a[i].key) == MapName(b[i].key) && MapName(a[i].value) == MapName(b[i].value)
    {
      assert x[i] == EntryName(a[i]) && y[i] == EntryName(b[i]);
    }
  }

  lemma MapFields(a: seq<Entry>, b: seq<Entry>)
    requires MapName(Mapping(a)) == MapName(Mapping(b)) && AllStrings(a) && AllStrings(b)
    ensures StringKeys(a) == StringKeys(b)
    ensures forall k :: k in StringKeys(a) ==> MapName(a[IndexOf(a, k)].value) == MapName(b[IndexOf(b, k)].value)
  {
    hide MapName, IndexOf, AllStrings, FieldNames;
    RecordNamed(a);
    RecordNamed(b);
    assert FieldNames(a) == FieldNames(b);
    assert FieldNames(a).Keys == StringKeys(a) && FieldNames(b).Keys == StringKeys(b);
    forall k | k in StringKeys(a) ensures MapName(a[IndexOf(a, k)].value) == MapName(b[IndexOf(b, k)].value) {
      FieldAt(a, k);
      FieldAt(b, k);
    }
  }

  lemma SameCoreItems(a: seq<Value>, b: seq<Value>)
    requires |a| == |b| && forall i :: 0 <= i < |a| ==> CoreName(a[i]) == CoreName(b[i])
    ensures CoreName(Sequence(a)) == CoreName(Sequence(b))
  {
    assert CoreName(Sequence(a)).items == CoreName(Sequence(b)).items;
  }

  lemma SameCoreEntries(a: seq<Entry>, b: seq<Entry>)
    requires |a| == |b|
    requires forall i :: 0 <= i < |a| ==>
        CoreName(a[i].key) == CoreName(b[i].key) && CoreName(a[i].value) == CoreName(b[i].value)
    ensures CoreName(Mapping(a)) == CoreName(Mapping(b))
  {
    assert CoreName(Mapping(a)).entries == CoreName(Mapping(b)).entries;
  }

  lemma SameReturnedItems(order: Order, a: seq<Value>, b: seq<Value>)
    requires ValidOrder(order) && |a| == |b|
    requires forall i :: 0 <= i < |a| ==> CoreName(Returned(order, a[i])) == CoreName(Returned(order, b[i]))
    ensures CoreName(Returned(order, Sequence(a))) == CoreName(Returned(order, Sequence(b)))
  {
    hide ValidOrder, CoreName;
    SameCoreItems(Returned(order, Sequence(a)).items, Returned(order, Sequence(b)).items);
  }

  lemma SameReturnedMaps(order: Order, a: seq<Entry>, b: seq<Entry>)
    requires ValidOrder(order) && |a| == |b| && !AllStrings(a) && !AllStrings(b)
    requires forall i :: 0 <= i < |a| ==> EntryKept(a[i]) && EntryKept(b[i])
    requires forall i :: 0 <= i < |a| ==> CoreName(Returned(order, a[i].key)) == CoreName(Returned(order, b[i].key))
    requires forall i :: 0 <= i < |a| ==> CoreName(Returned(order, a[i].value)) == CoreName(Returned(order, b[i].value))
    ensures CoreName(Returned(order, Mapping(a))) == CoreName(Returned(order, Mapping(b)))
  {
    hide ValidOrder, CoreName, Returned, NumbersKept, AllStrings;
    MappingReturns(order, a);
    MappingReturns(order, b);
    SameCoreEntries(ReturnedEntries(order, a), ReturnedEntries(order, b));
  }

  lemma SameReturnedRecords(order: Order, a: seq<Entry>, b: seq<Entry>)
    requires ValidOrder(order) && AllStrings(a) && AllStrings(b)
    requires RecordOrder(order, a) == RecordOrder(order, b) && StringKeys(a) == StringKeys(b)
    requires forall k :: k in StringKeys(a) ==>
      CoreName(Returned(order, a[IndexOf(a, k)].value)) == CoreName(Returned(order, b[IndexOf(b, k)].value))
    ensures CoreName(Returned(order, Mapping(a))) == CoreName(Returned(order, Mapping(b)))
  {
    hide ValidOrder, CoreName, Returned, IndexOf, AllStrings, RecordOrder;
    MappingReturns(order, a);
    MappingReturns(order, b);
    ListsOnly(RecordOrder(order, a), StringKeys(a));
    SameCoreEntries(ReturnedRecord(order, a), ReturnedRecord(order, b));
  }

  /**
    Two values whose reserved keys JavaScript lists alike: where string-keyed mappings
    that have a reserved key face each other, their keys have the same own order.
   */
  predicate SameOrder(order: Order, a: Value, b: Value)
    decreases a
  {
    match a
    case Sequence(items) =>
      b.Sequence? && |items| == |b.items| && forall i :: 0 <= i < |items| ==> SameOrder(order, items[i], b.items[i])
    case Mapping(entries) =>
      && b.Mapping? && (AllStrings(entries) <==> AllStrings(b.entries))
      && if AllStrings(entries) then SameFieldOrder(order, entries, b.entries)
         else
           && |entries| == |b.entries|
           && forall i :: 0 <= i < |entries| ==>
                SameOrder(order, entries[i].key, b.entries[i].key)
                    && SameOrder(order, entries[i].value, b.entries[i].value)
    case _ => true
  }

  predicate SameFieldOrder(order: Order, a: seq<Entry>, b: seq<Entry>)
    requires AllStrings(a) && AllStrings(b)
    decreases a
  {
    && StringKeys(a) == StringKeys(b)
    && (HasReservedKey(a) ==> order.own(KeyOrder(a)) == order.own(KeyOrder(b)))
    && forall k :: k in StringKeys(a) && k in StringKeys(b) ==>
         SameItemOrder(order, a[IndexOf(a, k)], b[IndexOf(b, k)])
  }

  predicate SameItemOrder(order: Order, a: Entry, b: Entry)
    decreases a
  {
    SameOrder(order, a.value, b.value)
  }

  lemma ReservedTold(a: seq<Entry>, b: seq<Entry>)
    requires StringKeys(a) == StringKeys(b)
    ensures HasReservedKey(a) <==> HasReservedKey(b)
  {
    ReservedIn(a);
    ReservedIn(b);
    hide HasReservedKey, StringKeys;
  }

  lemma ReservedIn(entries: seq<Entry>)
    ensures HasReservedKey(entries) <==> exists k :: k in StringKeys(entries) && Reserved(k)
  {
    hide Reserved;
    if HasReservedKey(entries) {
      var i :| 0 <= i < |entries| && entries[i].key.Str? && Reserved(entries[i].key.text);
      assert entries[i].key.text in StringKeys(entries);
    }
  }

  /** Values equal as finite maps whose reserved keys are listed alike come back equal to the core. */
  lemma {:induction false} MapTellsReturned(order: Order, a: Value, b: Value)
    requires ValidOrder(order) && MapName(a) == MapName(b) && SameOrder(order, a, b)
    requires NumbersKept(a) && NumbersKept(b)
    ensures CoreName(Returned(order, a)) == CoreName(Returned(order, b))
    decreases a
  {
    MapShapes(a, b);
    hide ValidOrder, CoreName, MapName, Returned, AllStrings, ScalarName, HasReservedKey, StringKeys;
    hide IndexOf, SameFieldOrder;
    if a.Sequence? {
      MapItems(a.items, b.items);
      forall i | 0 <= i < |a.items|
        ensures CoreName(Returned(order, a.items[i])) == CoreName(Returned(order, b.items[i]))
      {
        MapTellsReturned(order, a.items[i], b.items[i]);
      }
      SameReturnedItems(order, a.items, b.items);
    } else if a.Mapping? {
      if AllStrings(a.entries) {
        MapTellsRecord(order, a.entries, b.entries);
      } else {
        MapTellsEntries(order, a.entries, b.entries);
      }
    } else {
      ScalarTold(order, a);
      ScalarTold(order, b);
    }
  }

  lemma {:induction false} MapTellsEntries(order: Order, a: seq<Entry>, b: seq<Entry>)
    requires ValidOrder(order) && MapName(Mapping(a)) == MapName(Mapping(b)) && !AllStrings(a) && !AllStrings(b)
    requires NumbersKept(Mapping(a)) && NumbersKept(Mapping(b)) && SameOrder(order, Mapping(a), Mapping(b))
    ensures CoreName(Returned(order, Mapping(a))) == CoreName(Returned(order, Mapping(b)))
    decreases a
  {
    hide ValidOrder, CoreName, MapName, Returned, AllStrings, SameFieldOrder;
    MapEntries(a, b);
    forall i | 0 <= i < |a|
      ensures EntryKept(a[i]) && EntryKept(b[i])
      ensures CoreName(Returned(order, a[i].key)) == CoreName(Returned(order, b[i].key))
      ensures CoreName(Returned(order, a[i].value)) == CoreName(Returned(order, b[i].value))
    {
      assert EntryKept(a[i]) && EntryKept(b[i]);
      MapTellsReturned(order, a[i].key, b[i].key);
      MapTellsReturned(order, a[i].value, b[i].value);
    }
    SameReturnedMaps(order, a, b);
  }

  lemma {:induction false} MapTellsRecord(order: Order, a: seq<Entry>, b: seq<Entry>)
    requires ValidOrder(order) && MapName(Mapping(a)) == MapName(Mapping(b)) && AllStrings(a) && AllStrings(b)
    requires NumbersKept(Mapping(a)) && NumbersKept(Mapping(b)) && SameFieldOrder(order, a, b)
    ensures CoreName(Returned(order, Mapping(a))) == CoreName(Returned(order, Mapping(b)))
    decreases a
  {
    hide ValidOrder, CoreName, MapName, Returned, AllStrings, HasReservedKey, IndexOf;
    MapFields(a, b);
    ReservedTold(a, b);
    forall k | k in StringKeys(a)
      ensures CoreName(Returned(order, a[IndexOf(a, k)].value)) == CoreName(Returned(order, b[IndexOf(b, k)].value))
    {
      var i, j := IndexOf(a, k), IndexOf(b, k);
      assert EntryKept(a[i]) && EntryKept(b[j]) && SameItemOrder(order, a[i], b[j]);
      MapTellsReturned(order, a[i].value, b[j].value);
    }
    hide StringKeys;
    assert RecordOrder(order, a) == RecordOrder(order, b);
    SameReturnedRecords(order, a, b);
  }

  // ----- And the other way round -----

  /** What comes back equal to the core has its reserved keys listed alike. */
  lemma {:induction false} ReturnedTellsOrder(order: Order, a: Value, b: Value)
    requires ValidOrder(order) && CoreName(Returned(order, a)) == CoreName(Returned(order, b))
        && MapName(a) == MapName(b)
    requires NumbersKept(a) && NumbersKept(b)
    ensures SameOrder(order, a, b)
    decreases a
  {
    MapShapes(a, b);
    hide ValidOrder, CoreName, MapName, AllStrings, ScalarName, HasReservedKey, StringKeys, IndexOf, SameFieldOrder;
    if a.Sequence? {
      MapItems(a.items, b.items);
      CoreItems(Returned(order, a).items, Returned(order, b).items);
      forall i | 0 <= i < |a.items| ensures SameOrder(order, a.items[i], b.items[i]) {
        assert Returned(order, a).items[i] == Returned(order, a.items[i]);
        assert Returned(order, b).items[i] == Returned(order, b.items[i]);
        ReturnedTellsOrder(order, a.items[i], b.items[i]);
      }
    } else if a.Mapping? {
      hide Returned;
      if AllStrings(a.entries) {
        RecordTellsOrder(order, a.entries, b.entries);
      } else {
        EntriesTellOrder(order, a.entries, b.entries);
      }
    }
  }

  lemma {:induction false} EntriesTellOrder(order: Order, a: seq<Entry>, b: seq<Entry>)
    requires ValidOrder(order) && CoreName(Returned(order, Mapping(a))) == CoreName(Returned(order, Mapping(b)))
    requires MapName(Mapping(a)) == MapName(Mapping(b)) && !AllStrings(a) && !AllStrings(b)
    requires NumbersKept(Mapping(a)) && NumbersKept(Mapping(b))
    ensures SameOrder(order, Mapping(a), Mapping(b))
    decreases a
  {
    hide ValidOrder, CoreName, MapName, Returned, AllStrings, SameFieldOrder;
    MapEntries(a, b);
    MappingReturns(order, a);
    MappingReturns(order, b);
    CoreEntries(ReturnedEntries(order, a), ReturnedEntries(order, b));
    forall i | 0 <= i < |a|
      ensures SameOrder(order, a[i].key, b[i].key) && SameOrder(order, a[i].value, b[i].value)
    {
      assert EntryKept(a[i]) && EntryKept(b[i]);
      assert ReturnedEntries(order, a)[i] == ReturnedEntry(order, a[i]);
      assert ReturnedEntries(order, b)[i] == ReturnedEntry(order, b[i]);
      ReturnedTellsOrder(order, a[i].key, b[i].key);
      ReturnedTellsOrder(order, a[i].value, b[i].value);
    }
  }

  /** The entries of two records that come back equal: the same names in the same order. */
  lemma RecordsReturnAlike(order: Order, a: seq<Entry>, b: seq<Entry>)
    requires ValidOrder(order) && AllStrings(a) && AllStrings(b)
    requires CoreName(Returned(order, Mapping(a))) == CoreName(Returned(order, Mapping(b)))
    ensures RecordOrder(order, a) == RecordOrder(order, b) && StringKeys(a) == StringKeys(b)
    ensures forall k :: k in StringKeys(a) ==>
      CoreName(Returned(order, a[IndexOf(a, k)].value)) == CoreName(Returned(order, b[IndexOf(b, k)].value))
  {
    hide ValidOrder, CoreName, Returned, IndexOf, AllStrings, RecordOrder, StringKeys;
    MappingReturns(order, a);
    MappingReturns(order, b);
    var x, y := ReturnedRecord(order, a), ReturnedRecord(order, b);
    var m, n := RecordOrder(order, a), RecordOrder(order, b);
    CoreEntries(x, y);
    ListsOnly(m, StringKeys(a));
    ListsOnly(n, StringKeys(b));
    forall i | 0 <= i < |m| ensures m[i] == n[i] {
      assert x[i].key == Str(m[i]) && y[i].key == Str(n[i]);
      KeyTold(x[i].key, y[i].key);
    }
    assert m == n;
    forall k | k in StringKeys(a)
      ensures CoreName(Returned(order, a[IndexOf(a, k)].value)) == CoreName(Returned(order, b[IndexOf(b, k)].value))
    {
      assert k in NameSet(m);
      var i :| 0 <= i < |m| && m[i] == k;
      assert x[i].value == ReturnedEntry(order, a[IndexOf(a, k)]).value;
      assert y[i].value == ReturnedEntry(order, b[IndexOf(b, k)]).value;
    }
  }

  lemma {:induction false} RecordTellsOrder(order: Order, a: seq<Entry>, b: seq<Entry>)
    requires ValidOrder(order) && CoreName(Returned(order, Mapping(a))) == CoreName(Returned(order, Mapping(b)))
    requires MapName(Mapping(a)) == MapName(Mapping(b)) && AllStrings(a) && AllStrings(b)
    requires NumbersKept(Mapping(a)) && NumbersKept(Mapping(b))
    ensures SameFieldOrder(order, a, b)
    decreases a
  {
    hide ValidOrder, CoreName, MapName, Returned, AllStrings, HasReservedKey, IndexOf;
    MapFields(a, b);
    ReservedTold(a, b);
    RecordsReturnAlike(order, a, b);
    forall k | k in StringKeys(a) && k in StringKeys(b)
      ensures SameItemOrder(order, a[IndexOf(a, k)], b[IndexOf(b, k)])
    {
      var i, j := IndexOf(a, k), IndexOf(b, k);
      assert EntryKept(a[i]) && EntryKept(b[j]);
      ReturnedTellsOrder(order, a[i].value, b[j].value);
    }
  }

  /** Without reserved keys there is no order to tell apart. */
  lemma {:induction false} UnreservedSameOrder(order: Order, a: Value, b: Value)
    requires ValidOrder(order) && MapName(a) == MapName(b) && Unreserved(a) && Unreserved(b)
    ensures SameOrder(order, a, b)
    decreases a
  {
    MapShapes(a, b);
    hide ValidOrder, MapName, AllStrings, ScalarName, HasReservedKey, IndexOf;
    if a.Sequence? {
      MapItems(a.items, b.items);
      forall i | 0 <= i < |a.items| ensures SameOrder(order, a.items[i], b.items[i]) {
        UnreservedSameOrder(order, a.items[i], b.items[i]);
      }
    } else if a.Mapping? {
      if AllStrings(a.entries) {
        MapFields(a.entries, b.entries);
        forall k | k in StringKeys(a.entries) && k in StringKeys(b.entries)
          ensures SameItemOrder(order, a.entries[IndexOf(a.entries, k)], b.entries[IndexOf(b.entries, k)])
        {
          var i, j := IndexOf(a.entries, k), IndexOf(b.entries, k);
          assert EntryUnreserved(a.entries[i]) && EntryUnreserved(b.entries[j]);
          UnreservedSameOrder(order, a.entries[i].value, b.entries[j].value);
        }
      } else {
        MapEntries(a.entries, b.entries);
        forall i | 0 <= i < |a.entries|
          ensures SameOrder(order, a.entries[i].key, b.entries[i].key)
          ensures SameOrder(order, a.entries[i].value, b.entries[i].value)
        {
          assert EntryUnreserved(a.entries[i]) && EntryUnreserved(b.entries[i]);
          UnreservedSameOrder(order, a.entries[i].key, b.entries[i].key);
          UnreservedSameOrder(order, a.entries[i].value, b.entries[i].value);
        }
      }
    }
  }

  /**
    Two values come back equal to the core exactly when they are equal as finite maps and
    JavaScript lists their reserved keys alike.
   */
  lemma ReturnAlikeIff(order: Order, a: Value, b: Value)
    requires ValidOrder(order) && UniqueKeys(a) && UniqueKeys(b) && NumbersKept(a) && NumbersKept(b)
    ensures CoreName(Returned(order, a)) == CoreName(Returned(order, b))
       <==> MapName(a) == MapName(b) && SameOrder(order, a, b)
  {
    hide ValidOrder, CoreName, MapName, Returned, UniqueKeys, NumbersKept, SameOrder;
    SameIffNumbersKept(order, a);
    SameIffNumbersKept(order, b);
    if CoreName(Returned(order, a)) == CoreName(Returned(order, b)) {
      CoreTellsMap(Returned(order, a), Returned(order, b));
      ReturnedTellsOrder(order, a, b);
    }
    if MapName(a) == MapName(b) && SameOrder(order, a, b) {
      MapTellsReturned(order, a, b);
    }
  }

  lemma ScalarTold(order: Order, v: Value)
    requires ValidOrder(order) && !v.Sequence? && !v.Mapping? && NumbersKept(v)
    ensures CoreName(Returned(order, v)) == ScalarName(v)
  {
    hide ValidOrder, ScalarName, ReturnedScalar, NumbersKept;
    ScalarKept(v);
    ReturnedScalarIs(order, v);
    ScalarNames(ReturnedScalar(v));
  }

  // ----- Exactly when keys stay distinct -----

  /** Two keys that would come back as one. */
  predicate Meet(order: Order, a: Value, b: Value) {
    MapName(a) == MapName(b) && SameOrder(order, a, b)
  }

  predicate KeysMeet(order: Order, entries: seq<Entry>) {
    exists i, j :: 0 <= i < j < |entries| && Meet(order, entries[i].key, entries[j].key)
  }

  /**
    In no mapping whose keys are not all strings are two keys equal as finite maps, with
    their reserved keys in the same own order.
   */
  predicate KeysApart(order: Order, v: Value) {
    match v
    case Sequence(items) => forall i :: 0 <= i < |items| ==> KeysApart(order, items[i])
    case Mapping(entries) =>
      && (forall i :: 0 <= i < |entries| ==> EntryKeysApart(order, entries[i]))
      && (!AllStrings(entries) ==> !KeysMeet(order, entries))
    case _ => true
  }

  predicate EntryKeysApart(order: Order, entry: Entry) { KeysApart(order, entry.key) && KeysApart(order, entry.value) }

  lemma KeysBack(order: Order, entries: seq<Entry>)
    requires ValidOrder(order)
    requires forall i :: 0 <= i < |entries| ==> UniqueKeys(entries[i].key) && EntryKept(entries[i])
    ensures DistinctKeys(ReturnedEntries(order, entries)) <==> !KeysMeet(order, entries)
  {
    hide ValidOrder, CoreName, MapName, Returned, UniqueKeys, NumbersKept, SameOrder, Meet;
    var back := ReturnedEntries(order, entries);
    forall i, j | 0 <= i < j < |entries|
      ensures CoreName(back[i].key) == CoreName(back[j].key) <==> Meet(order, entries[i].key, entries[j].key)
    {
      assert EntryKept(entries[i]) && EntryKept(entries[j]);
      ReturnAlikeIff(order, entries[i].key, entries[j].key);
      MeetIs(order, entries[i].key, entries[j].key);
    }
  }

  lemma MeetIs(order: Order, a: Value, b: Value)
    ensures Meet(order, a, b) <==> MapName(a) == MapName(b) && SameOrder(order, a, b)
  {
    hide MapName, SameOrder;
  }

  /** Keys stay distinct exactly when they are apart. */
  lemma {:induction false} StaysIffApart(order: Order, v: Value)
    requires ValidOrder(order) && UniqueKeys(v) && NumbersKept(v)
    ensures StaysDistinct(order, v) <==> KeysApart(order, v)
    decreases v
  {
    hide ValidOrder, CoreName, AllStrings, DistinctKeys, KeysMeet;
    match v
    case Sequence(items) =>
      forall i | 0 <= i < |items| ensures StaysDistinct(order, items[i]) <==> KeysApart(order, items[i]) {
        StaysIffApart(order, items[i]);
      }
    case Mapping(entries) =>
      forall i | 0 <= i < |entries|
        ensures EntryKept(entries[i])
        ensures EntryStaysDistinct(order, entries[i]) <==> EntryKeysApart(order, entries[i])
      {
        assert EntryKept(entries[i]);
        StaysIffApart(order, entries[i].key);
        StaysIffApart(order, entries[i].value);
      }
      KeysBack(order, entries);
      hide EntryKept, EntryKeysApart, EntryStaysDistinct, ReturnedEntries;
    case _ =>
  }

  lemma NamesKeepApart(order: Order, entries: seq<Entry>)
    requires ValidOrder(order)
    ensures NamesDiffer(entries) ==> !KeysMeet(order, entries)
    ensures (forall i :: 0 <= i < |entries| ==> EntryUnreserved(entries[i])) ==>
      (NamesDiffer(entries) <==> !KeysMeet(order, entries))
  {
    hide ValidOrder, MapName, SameOrder, Unreserved, Meet;
    forall i, j | 0 <= i < j < |entries|
      ensures Meet(order, entries[i].key, entries[j].key) ==> MapName(entries[i].key) == MapName(entries[j].key)
      ensures EntryUnreserved(entries[i]) && EntryUnreserved(entries[j])
          && MapName(entries[i].key) == MapName(entries[j].key)
        ==> Meet(order, entries[i].key, entries[j].key)
    {
      MeetIs(order, entries[i].key, entries[j].key);
      if EntryUnreserved(entries[i]) && EntryUnreserved(entries[j])
          && MapName(entries[i].key) == MapName(entries[j].key) {
        UnreservedSameOrder(order, entries[i].key, entries[j].key);
      }
    }
  }

  /** Keys that differ as finite maps are apart; and without reserved keys only those are. */
  lemma {:induction false} ApartIffNamesDiffer(order: Order, v: Value)
    requires ValidOrder(order)
    ensures DistinctNames(v) ==> KeysApart(order, v)
    ensures Unreserved(v) ==> (KeysApart(order, v) <==> DistinctNames(v))
    decreases v
  {
    hide ValidOrder, AllStrings, NamesDiffer, HasReservedKey, KeysMeet;
    match v
    case Sequence(items) =>
      forall i | 0 <= i < |items|
        ensures DistinctNames(items[i]) ==> KeysApart(order, items[i])
        ensures Unreserved(items[i]) ==> (KeysApart(order, items[i]) <==> DistinctNames(items[i]))
      {
        ApartIffNamesDiffer(order, items[i]);
      }
    case Mapping(entries) =>
      forall i | 0 <= i < |entries|
        ensures EntryDistinctNames(entries[i]) ==> EntryKeysApart(order, entries[i])
        ensures EntryUnreserved(entries[i]) ==> (EntryKeysApart(order, entries[i]) <==> EntryDistinctNames(entries[i]))
      {
        ApartIffNamesDiffer(order, entries[i].key);
        ApartIffNamesDiffer(order, entries[i].value);
      }
      NamesKeepApart(order, entries);
      hide EntryDistinctNames, EntryKeysApart, EntryUnreserved;
    case _ =>
  }

  /** The same of keys that stay distinct on the way. */
  lemma StaysIffNamesDiffer(order: Order, v: Value)
    requires ValidOrder(order) && UniqueKeys(v) && NumbersKept(v)
    ensures DistinctNames(v) ==> StaysDistinct(order, v)
    ensures Unreserved(v) ==> (StaysDistinct(order, v) <==> DistinctNames(v))
  {
    hide *;
    StaysIffApart(order, v);
    ApartIffNamesDiffer(order, v);
  }

  lemma NumberTold(a: Value, b: Value)
    requires NumbersKept(a) && NumbersKept(b) && a != Float(NegativeZero) && b != Float(NegativeZero)
    requires NumberOf(a).Some? && NumberOf(a) == NumberOf(b)
    ensures CoreName(a) == CoreName(b)
  {
  }

  lemma {:induction false} KeptNeverClashes(v: Value)
    requires UniqueKeys(v) && NumbersKept(v)
    ensures !NumberClash(v)
    decreases v
  {
    hide CoreName, NumberOf;
    match v
    case Sequence(items) =>
      forall i | 0 <= i < |items| ensures !NumberClash(items[i]) {
        KeptNeverClashes(items[i]);
      }
    case Mapping(entries) =>
      forall i | 0 <= i < |entries| ensures EntryKept(entries[i]) && !EntryClash(entries[i]) {
        assert EntryKept(entries[i]);
        KeptNeverClashes(entries[i].key);
        KeptNeverClashes(entries[i].value);
      }
      hide NumbersKept, EntryClash, UniqueKeys;
      forall i, j | 0 <= i < j < |entries|
        ensures !(NumberOf(entries[i].key).Some? && NumberOf(entries[i].key) == NumberOf(entries[j].key))
      {
        assert EntryKept(entries[i]) && EntryKept(entries[j]);
        if NumberOf(entries[i].key).Some? && NumberOf(entries[i].key) == NumberOf(entries[j].key) {
          NumberTold(entries[i].key, entries[j].key);
        }
      }
    case _ =>
  }

  // ----- The law -----

  /** `fromJs`: None when it throws. */
  function FromJs(js: Js, maxDepth: nat): Option<Value> {
    Encode(js, 0, maxDepth)
  }

  /** Out and back again: None when either way throws. */
  function ThroughJavaScript(order: Order, v: Value, maxDepth: nat): Option<Value>
    requires ValidOrder(order)
  {
    var js := AsJs(order, v, maxDepth);
    if js.None? then None else FromJs(js.value, maxDepth)
  }

  lemma ThroughIsReturned(order: Order, v: Value, maxDepth: nat)
    requires ValidOrder(order) && UniqueKeys(v)
    ensures ThroughJavaScript(order, v, maxDepth)
         == if Height(v) <= maxDepth && !NumberClash(v) && StaysDistinct(order, v) then Some(Returned(order, v))
            else None
  {
    hide ValidOrder, AsJs, Encode, Returned, NumberClash, StaysDistinct, View, Height, UniqueKeys;
    AsJsIsView(order, v, maxDepth);
    if Height(v) <= maxDepth && !NumberClash(v) {
      Returns(order, v, 0, maxDepth);
    }
  }

  /**
    `fromJs(asJs(v)) == v`, mappings with string keys as finite maps, holds exactly when v
    is shallow enough, keeps no number in a form JavaScript gives back differently, and
    has its keys apart.
   */
  lemma RoundTripIff(order: Order, v: Value, maxDepth: nat)
    requires ValidOrder(order) && UniqueKeys(v)
    ensures var back := ThroughJavaScript(order, v, maxDepth);
      (back.Some? && MapName(back.value) == MapName(v))
      <==> Height(v) <= maxDepth && NumbersKept(v) && KeysApart(order, v)
  {
    hide ValidOrder, ThroughJavaScript, Returned, NumberClash, StaysDistinct, Height, UniqueKeys, MapName;
    hide NumbersKept, KeysApart;
    ThroughIsReturned(order, v, maxDepth);
    SameIffNumbersKept(order, v);
    if NumbersKept(v) {
      KeptNeverClashes(v);
      StaysIffApart(order, v);
    }
  }

  /** With no reserved keys the condition is about v alone, whatever order JavaScript lists properties in. */
  lemma RoundTripIffNamesDiffer(order: Order, v: Value, maxDepth: nat)
    requires ValidOrder(order) && UniqueKeys(v) && Unreserved(v)
    ensures var back := ThroughJavaScript(order, v, maxDepth);
      (back.Some? && MapName(back.value) == MapName(v))
      <==> Height(v) <= maxDepth && NumbersKept(v) && DistinctNames(v)
  {
    hide ValidOrder, ThroughJavaScript, Height, UniqueKeys, MapName, NumbersKept, Unreserved, DistinctNames, KeysApart;
    RoundTripIff(order, v, maxDepth);
    ApartIffNamesDiffer(order, v);
  }

  // ----- What fromJs can make -----

  /** JavaScript data with no native value in it; a Map never holds the key -0. */
  predicate PlainJs(js: Js) {
    match js
    case JsNative(_) => false
    case JsArray(items) => forall i :: 0 <= i < |items| ==> PlainJs(items[i])
    case JsObject(properties) => forall i :: 0 <= i < |properties| ==> PlainProperty(properties[i])
    case JsMap(entries) => forall i :: 0 <= i < |entries| ==> PlainEntry(entries[i])
    case _ => true
  }

  predicate PlainProperty(property: Property) { PlainJs(property.value) }

  predicate PlainEntry(entry: JsEntry) {
    entry.key != JsNumber(NegativeZero) && PlainJs(entry.key) && PlainJs(entry.value)
  }

  predicate Made(v: Value) { UniqueKeys(v) && NumbersKept(v) }

  lemma MappingMade(entries: seq<Entry>)
    requires DistinctKeys(entries)
    requires forall i :: 0 <= i < |entries| ==>
        entries[i].key != Float(NegativeZero) && Made(entries[i].key) && Made(entries[i].value)
    ensures Made(Mapping(entries))
  {
    hide CoreName;
    forall i | 0 <= i < |entries|
      ensures EntryKept(entries[i]) && UniqueKeys(entries[i].key) && UniqueKeys(entries[i].value)
    {
      assert Made(entries[i].key) && Made(entries[i].value);
    }
  }

  lemma MadeKey(js: Js, depth: nat, maxDepth: nat)
    requires Encode(js, depth, maxDepth).Some? && js != JsNumber(NegativeZero) && !js.JsNative?
    ensures Encode(js, depth, maxDepth).value != Float(NegativeZero)
  {
    hide DistinctKeys, EncodeEntry, EncodeProperty;
  }

  /** A value made by `fromJs` has no key twice and keeps its numbers. */
  lemma {:induction false} FromJsMakes(js: Js, depth: nat, maxDepth: nat)
    requires PlainJs(js) && Encode(js, depth, maxDepth).Some?
    ensures Made(Encode(js, depth, maxDepth).value)
    decreases js
  {
    hide CoreName, DistinctKeys, Made;
    if js.JsArray? {
      var items := js.items;
      ArrayMakes(items, depth, maxDepth);
    } else if js.JsObject? {
      var properties := js.properties;
      var made := Encode(js, depth, maxDepth).value.entries;
      forall i | 0 <= i < |properties|
        ensures made[i].key.Str? && Made(made[i].key) && Made(made[i].value)
      {
        assert PlainProperty(properties[i]);
        assert EncodeProperty(properties[i], depth + 1, maxDepth).Some?;
        FromJsMakes(properties[i].value, depth + 1, maxDepth);
        StringMade(properties[i].name);
      }
      MappingMade(made);
    } else if js.JsMap? {
      var entries := js.entries;
      var made := Encode(js, depth, maxDepth).value.entries;
      forall i | 0 <= i < |entries|
        ensures made[i].key != Float(NegativeZero) && Made(made[i].key) && Made(made[i].value)
      {
        assert PlainEntry(entries[i]);
        assert EncodeEntry(entries[i], depth + 1, maxDepth).Some?;
        FromJsMakes(entries[i].key, depth + 1, maxDepth);
        FromJsMakes(entries[i].value, depth + 1, maxDepth);
        MadeKey(entries[i].key, depth + 1, maxDepth);
      }
      MappingMade(made);
    } else {
      ScalarMade(js, depth, maxDepth);
    }
  }

  lemma StringMade(s: string)
    ensures Made(Str(s))
  {
  }

  lemma ScalarMade(js: Js, depth: nat, maxDepth: nat)
    requires PlainJs(js) && Encode(js, depth, maxDepth).Some? && !js.JsArray? && !js.JsObject? && !js.JsMap?
    ensures Made(Encode(js, depth, maxDepth).value)
  {
  }

  lemma {:induction false} ArrayMakes(items: seq<Js>, depth: nat, maxDepth: nat)
    requires PlainJs(JsArray(items)) && Encode(JsArray(items), depth, maxDepth).Some?
    ensures Made(Encode(JsArray(items), depth, maxDepth).value)
    decreases items
  {
    var made := Encode(JsArray(items), depth, maxDepth).value.items;
    forall i | 0 <= i < |items| ensures UniqueKeys(made[i]) && NumbersKept(made[i]) {
      FromJsMakes(items[i], depth + 1, maxDepth);
    }
  }

  /** An undefined slot or a hole lies exactly so many levels down. */
  predicate UndefinedAt(js: Js, level: nat) {
    match js
    case JsUndefined => level == 0
    case JsArray(items) => level > 0 && exists i :: 0 <= i < |items| && UndefinedAt(items[i], level - 1)
    case JsObject(properties) =>
      level > 0 && exists i :: 0 <= i < |properties| && PropertyUndefinedAt(properties[i], level - 1)
    case JsMap(entries) => level > 0 && exists i :: 0 <= i < |entries| && EntryUndefinedAt(entries[i], level - 1)
    case _ => false
  }

  predicate PropertyUndefinedAt(property: Property, level: nat) { UndefinedAt(property.value, level) }

  predicate EntryUndefinedAt(entry: JsEntry, level: nat) {
    UndefinedAt(entry.key, level) || UndefinedAt(entry.value, level)
  }

  /** An entry is within a depth, both halves of it. */
  predicate EntryWithin(entry: Entry, depth: nat, maxDepth: nat) {
    depth + Height(entry.key) <= maxDepth && depth + Height(entry.value) <= maxDepth
  }

  lemma SequenceWithin(items: seq<Value>, depth: nat, maxDepth: nat)
    requires depth <= maxDepth
    ensures depth + Height(Sequence(items)) <= maxDepth
       <==> forall i :: 0 <= i < |items| ==> depth + 1 + Height(items[i]) <= maxDepth
  {
    hide Height;
    SequenceHeight(items, maxDepth - depth);
    if items != [] && forall i :: 0 <= i < |items| ==> depth + 1 + Height(items[i]) <= maxDepth {
      assert depth + 1 + Height(items[0]) <= maxDepth;
    }
  }

  lemma MappingWithin(entries: seq<Entry>, depth: nat, maxDepth: nat)
    requires depth <= maxDepth
    ensures depth + Height(Mapping(entries)) <= maxDepth
       <==> forall i :: 0 <= i < |entries| ==> EntryWithin(entries[i], depth + 1, maxDepth)
  {
    hide Height;
    MappingHeight(entries, maxDepth - depth);
    if entries != [] && forall i :: 0 <= i < |entries| ==> EntryWithin(entries[i], depth + 1, maxDepth) {
      assert EntryWithin(entries[0], depth + 1, maxDepth);
    }
  }

  /**
    What `fromJs` accepts within a depth is within that depth, unless an undefined slot
    lies exactly one level below it: that becomes null without a look at the depth.
   */
  lemma {:induction false} EncodedIsShallow(js: Js, depth: nat, maxDepth: nat)
    requires PlainJs(js) && Encode(js, depth, maxDepth).Some? && depth <= maxDepth + 1
    ensures depth + Height(Encode(js, depth, maxDepth).value) <= maxDepth <==> !UndefinedAt(js, maxDepth + 1 - depth)
    decreases js
  {
    hide CoreName, DistinctKeys, Height;
    if js.JsArray? {
      var items := js.items;
      var made := Encode(js, depth, maxDepth).value.items;
      forall i | 0 <= i < |items|
        ensures depth + 1 + Height(made[i]) <= maxDepth <==> !UndefinedAt(items[i], maxDepth - depth)
      {
        EncodedIsShallow(items[i], depth + 1, maxDepth);
      }
      SequenceWithin(made, depth, maxDepth);
    } else if js.JsObject? {
      var properties := js.properties;
      var made := Encode(js, depth, maxDepth).value.entries;
      forall i | 0 <= i < |properties|
        ensures EntryWithin(made[i], depth + 1, maxDepth) <==> !PropertyUndefinedAt(properties[i], maxDepth - depth)
      {
        assert PlainProperty(properties[i]);
        assert EncodeProperty(properties[i], depth + 1, maxDepth).Some?;
        EncodedIsShallow(properties[i].value, depth + 1, maxDepth);
        ScalarHeight(made[i].key);
      }
      MappingWithin(made, depth, maxDepth);
    } else if js.JsMap? {
      var entries := js.entries;
      var made := Encode(js, depth, maxDepth).value.entries;
      forall i | 0 <= i < |entries|
        ensures EntryWithin(made[i], depth + 1, maxDepth) <==> !EntryUndefinedAt(entries[i], maxDepth - depth)
      {
        assert PlainEntry(entries[i]);
        assert EncodeEntry(entries[i], depth + 1, maxDepth).Some?;
        EncodedIsShallow(entries[i].key, depth + 1, maxDepth);
        EncodedIsShallow(entries[i].value, depth + 1, maxDepth);
      }
      MappingWithin(made, depth, maxDepth);
    } else {
      ScalarHeight(Encode(js, depth, maxDepth).value);
    }
  }

  lemma ScalarHeight(v: Value)
    requires !v.Sequence? && !v.Mapping?
    ensures Height(v) == 0
  {
  }

  /**
    What `fromJs` makes comes back the same, or not at all: exactly when an undefined slot
    lies one level below the depth, or two keys differ in nothing but the order of entries
    that JavaScript does not keep.
   */
  lemma MadeRoundTrips(order: Order, js: Js, maxDepth: nat)
    requires ValidOrder(order) && PlainJs(js) && FromJs(js, maxDepth).Some?
    ensures var v, back := FromJs(js, maxDepth).value, ThroughJavaScript(order, FromJs(js, maxDepth).value, maxDepth);
      && (back.Some? ==> MapName(back.value) == MapName(v))
      && (back.Some? <==> !UndefinedAt(js, maxDepth + 1) && KeysApart(order, v))
      && (DistinctNames(v) ==> KeysApart(order, v))
      && (Unreserved(v) ==> (KeysApart(order, v) <==> DistinctNames(v)))
  {
    hide ValidOrder, ThroughJavaScript, StaysDistinct, Height, MapName, Unreserved, DistinctNames, Encode, KeysApart;
    hide Returned, UniqueKeys, NumbersKept, NumberClash, UndefinedAt;
    FromJsMakes(js, 0, maxDepth);
    EncodedIsShallow(js, 0, maxDepth);
    var v := FromJs(js, maxDepth).value;
    ThroughIsReturned(order, v, maxDepth);
    SameIffNumbersKept(order, v);
    KeptNeverClashes(v);
    StaysIffApart(order, v);
    ApartIffNamesDiffer(order, v);
  }

  /** A hole at the edge of the depth is accepted on the way in and refused on the way out. */
  lemma UndefinedIsDeeper(order: Order, maxDepth: nat)
    requires ValidOrder(order)
    ensures FromJs(Nested(maxDepth), maxDepth).Some?
    ensures ThroughJavaScript(order, FromJs(Nested(maxDepth), maxDepth).value, maxDepth).None?
  {
    hide ValidOrder, ThroughJavaScript, NumberClash, StaysDistinct, Returned;
    NestedEncodes(maxDepth, 0, maxDepth);
    NestedMade(maxDepth);
    ThroughIsReturned(order, NestedNull(maxDepth), maxDepth);
  }

  /** Arrays inside one another, the innermost with a hole. */
  function Nested(n: nat): Js {
    JsArray([if n == 0 then JsUndefined else Nested(n - 1)])
  }

  function NestedNull(n: nat): Value {
    Sequence([if n == 0 then Null else NestedNull(n - 1)])
  }

  lemma {:induction false} NestedEncodes(n: nat, depth: nat, maxDepth: nat)
    requires depth + n == maxDepth
    ensures Encode(Nested(n), depth, maxDepth) == Some(NestedNull(n))
    decreases n
  {
    if n != 0 { NestedEncodes(n - 1, depth + 1, maxDepth); }
    var item := if n == 0 then JsUndefined else Nested(n - 1);
    var made := if n == 0 then Null else NestedNull(n - 1);
    assert Encode(item, depth + 1, maxDepth) == Some(made);
    assert Encode(JsArray([item]), depth, maxDepth).value.items == [made];
  }

  lemma {:induction false} NestedMade(n: nat)
    ensures UniqueKeys(NestedNull(n)) && Height(NestedNull(n)) == n + 1
  {
    if n != 0 { NestedMade(n - 1); }
    var items := NestedNull(n).items;
    SequenceHeight(items, n);
    SequenceHeight(items, n + 1);
    assert Height(items[0]) == n;
  }

  // ----- A value that does not come back -----

  function PairOfFields(first: string, second: string): Value {
    Mapping([Entry(Str(first), Null), Entry(Str(second), Null)])
  }

  /** The native form of `new Map([[{ a: null, b: null }, null], [{ b: null, a: null }, null]])`. */
  const ORDERED_KEYS := Mapping([Entry(PairOfFields("a", "b"), Null), Entry(PairOfFields("b", "a"), Null)])

  lemma PairFields(first: string, second: string)
    requires first != second
    ensures MapName(PairOfFields(first, second)) == RecordName(map[first := NullName, second := NullName])
  {
    var made := [Entry(Str(first), Null), Entry(Str(second), Null)];
    var names := [first, second];
    FieldsOf(made, names);
    RecordNamed(made);
    ScalarNamed(Null);
    hide MapName, FieldNames;
    assert NameSet(names) == {first, second} by {
      assert names[0] == first && names[1] == second;
    }
    assert FieldNames(made) == map[first := NullName, second := NullName] by {
      assert names[0] == first && names[1] == second;
      assert made[0].value == Null && made[1].value == Null;
    }
  }

  lemma PairUnique(first: string, second: string)
    requires first != second && !Reserved(first) && !Reserved(second)
    ensures Made(PairOfFields(first, second)) && Unreserved(PairOfFields(first, second))
  {
    hide Reserved;
    StringMade(first);
    StringMade(second);
    var made := [Entry(Str(first), Null), Entry(Str(second), Null)];
    RecordDistinct(made, [first, second]);
    MappingMade(made);
    hide Made;
    ScalarUnreserved(Str(first));
    ScalarUnreserved(Str(second));
    ScalarUnreserved(Null);
    assert EntryUnreserved(made[0]) && EntryUnreserved(made[1]);
  }

  lemma ScalarUnreserved(v: Value)
    requires !v.Sequence? && !v.Mapping?
    ensures Unreserved(v)
  {
  }

  /** Keys that are equal as finite maps are refused on the way back in. */
  lemma EqualKeysAreLost(order: Order, v: Value, maxDepth: nat)
    requires ValidOrder(order) && Made(v) && Unreserved(v) && !DistinctNames(v)
    ensures ThroughJavaScript(order, v, maxDepth).None?
  {
    hide ValidOrder, ThroughJavaScript, StaysDistinct, Height, NumbersKept, UniqueKeys, DistinctNames;
    hide Unreserved, Returned, NumberClash;
    ThroughIsReturned(order, v, maxDepth);
    StaysIffNamesDiffer(order, v);
  }

  lemma PairsDiffer(first: string, second: string)
    requires first != second
    ensures CoreName(PairOfFields(first, second)) != CoreName(PairOfFields(second, first))
  {
    hide CoreName;
    var a, b := PairOfFields(first, second), PairOfFields(second, first);
    if CoreName(a) == CoreName(b) {
      CoreEntries(a.entries, b.entries);
      KeyTold(a.entries[0].key, b.entries[0].key);
    }
  }

  /** Equal entries in another order are another key to the core, but JavaScript does not keep the order. */
  lemma OrderOfKeysIsLost(order: Order, maxDepth: nat)
    requires ValidOrder(order)
    ensures Made(ORDERED_KEYS) && ThroughJavaScript(order, ORDERED_KEYS, maxDepth).None?
  {
    hide ValidOrder, ThroughJavaScript, MapName, CoreName, DistinctNames, Made, Unreserved, PairOfFields;
    var ab, ba := PairOfFields("a", "b"), PairOfFields("b", "a");
    LettersApart();
    PairUnique("a", "b");
    PairUnique("b", "a");
    PairFields("a", "b");
    PairFields("b", "a");
    assert map["a" := NullName, "b" := NullName] == map["b" := NullName, "a" := NullName];
    PairsDiffer("a", "b");
    PairIsMapping("a", "b");
    PairIsMapping("b", "a");
    PairsAreKeys([Entry(ab, Null), Entry(ba, Null)], ab, ba);
    EqualKeysAreLost(order, ORDERED_KEYS, maxDepth);
  }

  lemma LettersApart()
    ensures "a" != "b" && !Reserved("a") && !Reserved("b")
  {
    assert "a"[0] != "b"[0];
  }

  lemma PairIsMapping(first: string, second: string)
    ensures PairOfFields(first, second).Mapping?
  {
  }

  lemma PairsAreKeys(entries: seq<Entry>, a: Value, b: Value)
    requires entries == [Entry(a, Null), Entry(b, Null)] && MapName(a) == MapName(b) && CoreName(a) != CoreName(b)
    requires Made(a) && Made(b) && Unreserved(a) && Unreserved(b) && a.Mapping? && b.Mapping?
    ensures Made(Mapping(entries)) && Unreserved(Mapping(entries)) && !DistinctNames(Mapping(entries))
  {
    hide CoreName, MapName;
    assert DistinctKeys(entries);
    assert Made(Null);
    MappingMade(entries);
    hide Made;
    assert EntryUnreserved(entries[0]) && EntryUnreserved(entries[1]);
    assert !entries[0].key.Str?;
    assert MapName(entries[0].key) == MapName(entries[1].key);
  }
}
