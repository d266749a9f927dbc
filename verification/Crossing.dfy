/**
  What crosses between native values and JavaScript, spelled out: the JSON of every kind
  of value with its members by name, and what `asJs` makes of it, with every bound and
  every ratio of units as a number.
 */
module Crossing {
  import opened Sequences
  import opened Values
  import opened Transport
  import opened RoundTrip

  // ----- Instants -----

  /** Milliseconds that name the instant of a count, and fit a Date. */
  predicate DateOf(count: int, unit: TimeUnit, milliseconds: int) {
    && -8_640_000_000_000_000 <= milliseconds <= 8_640_000_000_000_000
    && match unit
       case Second => milliseconds == 1_000 * count
       case Millisecond => milliseconds == count
       case Microsecond => 1_000 * milliseconds == count
       case Nanosecond => 1_000_000 * milliseconds == count
       case _ => false
  }

  lemma InstantIs(count: Int64, unit: TimeUnit, milliseconds: int)
    ensures DateInstant(count, unit, None) == Some(milliseconds) <==> DateOf(count, unit, milliseconds)
  {
    if -8_640_000_000_000_000 <= milliseconds <= 8_640_000_000_000_000 {
      CountAtFinds(count, unit, Millisecond, milliseconds);
      KeysOfInstants(count, unit, milliseconds);
      hide CountAt, KeyOf;
    }
  }

  lemma KeysOfInstants(count: int, unit: TimeUnit, milliseconds: int)
    ensures KeyOf(milliseconds, Millisecond) == KeyOf(count, unit) <==>
      match unit
      case Second => milliseconds == 1_000 * count
      case Millisecond => milliseconds == count
      case Microsecond => 1_000 * milliseconds == count
      case Nanosecond => 1_000_000 * milliseconds == count
      case _ => false
  {
  }

  /** A timestamp becomes a Date exactly when it is naive and names a Date's instant, and stays itself otherwise. */
  lemma TimestampInJs(order: Order, count: Int64, unit: TimeUnit, zone: Option<string>, maxDepth: nat)
    requires ValidOrder(order)
    ensures var js := AsJs(order, Timestamp(count, unit, zone), maxDepth);
      && (forall ms :: js == Some(JsDate(ms)) <==> zone.None? && DateOf(count, unit, ms))
      && (zone.Some? || (forall ms :: !DateOf(count, unit, ms)) ==> js == Some(JsNative(Timestamp(count, unit, zone))))
  {
    hide AsJs, ValidOrder, DateInstant, DateOf;
    ScalarInJs(order, Timestamp(count, unit, zone), maxDepth);
    forall ms: int ensures DateInstant(count, unit, None) == Some(ms) <==> DateOf(count, unit, ms) {
      InstantIs(count, unit, ms);
    }
    Zoned(count, unit, zone);
  }

  lemma Zoned(count: Int64, unit: TimeUnit, zone: Option<string>)
    ensures zone.Some? ==> DateInstant(count, unit, zone).None?
  {
  }

  /** Counts of one instant in each unit have one name, and no two counts in one unit have. */
  lemma OneInstant(seconds: int, a: int, b: int, unit: TimeUnit)
    ensures KeyOf(seconds, Second) == KeyOf(seconds * 1_000, Millisecond)
         == KeyOf(seconds * 1_000_000, Microsecond) == KeyOf(seconds * 1_000_000_000, Nanosecond)
    ensures KeyOf(a, unit) == KeyOf(b, unit) <==> a == b
    ensures KeyOf(a, unit) == KeyOf(b, YearMonth) ==> unit.YearMonth?
    ensures KeyOf(a, unit) == KeyOf(b, DayTime) ==> unit.DayTime?
    ensures KeyOf(a, unit) == KeyOf(b, MonthDayNano) ==> unit.MonthDayNano?
  {
  }

  // ----- Everything else without children -----

  lemma ScalarInJs(order: Order, v: Value, maxDepth: nat)
    requires ValidOrder(order) && !v.Sequence? && !v.Mapping?
    ensures AsJs(order, v, maxDepth) == Some(ScalarView(v))
  {
    hide AsJs, ValidOrder, ScalarView;
    FlatHeight(v);
    AsJsIsView(order, v, maxDepth);
  }

  /** Integers of every width: a number within 2^53 - 1 of zero, a bigint beyond. */
  lemma IntegerInJs(order: Order, v: Value, maxDepth: nat)
    requires ValidOrder(order) && v.IsInteger()
    ensures AsJs(order, v, maxDepth)
         == Some(if -9_007_199_254_740_991 <= v.Integer() <= 9_007_199_254_740_991 then JsNumber(Integral(v.Integer()))
                 else JsBigInt(v.Integer()))
  {
    hide AsJs, ValidOrder;
    ScalarInJs(order, v, maxDepth);
  }

  lemma DataInJs(order: Order, b: bool, f: Double, text: string, bytes: seq<Byte>, maxDepth: nat)
    requires ValidOrder(order)
    ensures AsJs(order, Null, maxDepth) == Some(JsNull)
    ensures AsJs(order, Bool(b), maxDepth) == Some(JsBoolean(b))
    ensures AsJs(order, Float(f), maxDepth) == Some(JsNumber(f))
    ensures AsJs(order, Str(text), maxDepth) == Some(JsString(text))
    ensures AsJs(order, Bytes(bytes), maxDepth) == Some(JsBuffer(bytes))
  {
    hide AsJs, ValidOrder;
    ScalarInJs(order, Null, maxDepth);
    ScalarInJs(order, Bool(b), maxDepth);
    ScalarInJs(order, Float(f), maxDepth);
    ScalarInJs(order, Str(text), maxDepth);
    ScalarInJs(order, Bytes(bytes), maxDepth);
  }

  /** Decimals, dates, times and durations stay native values. */
  lemma NativeInJs(order: Order, v: Value, maxDepth: nat)
    requires ValidOrder(order) && (v.Decimal? || v.Date? || v.Time? || v.Duration?)
    ensures AsJs(order, v, maxDepth) == Some(JsNative(v))
  {
    hide AsJs, ValidOrder;
    ScalarInJs(order, v, maxDepth);
  }

  // ----- And back -----

  /** Numbers: an integer within 2^53 - 1 of zero is an integer, everything else a float, -0 too. */
  lemma NumberFromJs(f: Double, maxDepth: nat)
    ensures FromJs(JsNumber(f), maxDepth)
         == Some(if f.Integral? && -9_007_199_254_740_991 <= f.n <= 9_007_199_254_740_991 then I64(f.n) else Float(f))
  {
  }

  /** Bigints: the first of the four widths that holds one, and none beyond 128 bits. */
  lemma BigIntFromJs(n: int, maxDepth: nat)
    ensures var v := FromJs(JsBigInt(n), maxDepth);
      && (v.Some? <==>
            -170_141_183_460_469_231_731_687_303_715_884_105_728 <= n
            <= 340_282_366_920_938_463_463_374_607_431_768_211_455)
      && (v.Some? ==> v.value.IsInteger() && v.value.Integer() == n)
      && (v.Some? ==> (v.value.I64? <==> -9_223_372_036_854_775_808 <= n <= 9_223_372_036_854_775_807))
      && (v.Some? ==> (v.value.U64? <==> 9_223_372_036_854_775_808 <= n <= 18_446_744_073_709_551_615))
      && (v.Some? ==> (v.value.U128? <==> 170_141_183_460_469_231_731_687_303_715_884_105_728 <= n))
  {
  }

  /** Dates: a naive timestamp in milliseconds; an invalid Date is refused. */
  lemma DateFromJs(milliseconds: int, maxDepth: nat)
    ensures FromJs(JsDate(milliseconds), maxDepth)
         == if -8_640_000_000_000_000 <= milliseconds <= 8_640_000_000_000_000
            then Some(Timestamp(milliseconds, Millisecond, None)) else None
  {
  }

  lemma DataFromJs(b: bool, text: string, bytes: seq<Byte>, v: Value, maxDepth: nat)
    ensures FromJs(JsUndefined, maxDepth) == Some(Null) == FromJs(JsNull, maxDepth)
    ensures FromJs(JsBoolean(b), maxDepth) == Some(Bool(b))
    ensures FromJs(JsString(text), maxDepth) == Some(Str(text))
    ensures FromJs(JsBuffer(bytes), maxDepth) == Some(Bytes(bytes))
    ensures FromJs(JsNative(v), maxDepth) == Some(v)
  {
  }

  /** What a round trip changes of a scalar: a float that is a safe integer. Every other one comes back equal. */
  lemma ScalarComesBack(order: Order, v: Value, maxDepth: nat)
    requires ValidOrder(order) && !v.Sequence? && !v.Mapping?
    ensures var back := ThroughJavaScript(order, v, maxDepth);
      && back.Some?
      && (CoreName(back.value) == CoreName(v) <==>
            !(v.Float? && v.float.Integral? && -9_007_199_254_740_991 <= v.float.n <= 9_007_199_254_740_991))
  {
    hide AsJs, ValidOrder, DateInstant;
    ScalarInJs(order, v, maxDepth);
    ScalarReturns(v);
    if v.Timestamp? { DateInstantFits(v.count, v.unit, v.zone); }
    hide KeyOf;
  }

  // ----- The JSON in between -----

  function Tagged(kind: string, members: map<string, Json>): Json {
    JsonObject(members["__yggdryl_codec__" := JsonText(Plain(kind))])
  }

  function UnitText(unit: TimeUnit): string {
    match unit
    case Second => "s"
    case Millisecond => "ms"
    case Microsecond => "us"
    case Nanosecond => "ns"
    case YearMonth => "year_month"
    case DayTime => "day_time"
    case MonthDayNano => "month_day_nano"
  }

  /** The markers of data, exact numbers and special floats. */
  lemma DataOnTheWire(n: int, bytes: seq<Byte>, unscaled: Int128, scale: int, days: int)
    ensures !(-9_007_199_254_740_991 <= n <= 9_007_199_254_740_991) ==>
      IntegerTransport(n) == Tagged("bigint", map["value" := JsonText(Digits(n))])
    ensures ScalarTransport(Bytes(bytes)) == Tagged("bytes", map["value" := JsonText(Base64(bytes))])
    ensures ScalarTransport(Decimal(unscaled, scale))
         == Tagged("decimal", map["value" := JsonText(Digits(unscaled)), "scale" := JsonNumber(Integral(scale))])
    ensures ScalarTransport(Date(days)) == Tagged("date", map["value" := JsonNumber(Integral(days))])
  {
  }

  lemma FloatsOnTheWire()
    ensures FloatTransport(NotANumber) == Tagged("float", map["value" := JsonText(Plain("nan"))])
    ensures FloatTransport(PositiveInfinity) == Tagged("float", map["value" := JsonText(Plain("infinity"))])
    ensures FloatTransport(NegativeInfinity) == Tagged("float", map["value" := JsonText(Plain("-infinity"))])
    ensures FloatTransport(NegativeZero) == Tagged("float", map["value" := JsonText(Plain("-0"))])
  {
  }

  lemma TimesOnTheWire(count: Int64, unit: TimeUnit)
    ensures ScalarTransport(Time(count, unit))
         == Tagged("time", map["value" := JsonText(Digits(count)), "unit" := JsonText(Plain(UnitText(unit)))])
    ensures ScalarTransport(Duration(count, unit))
         == Tagged("duration", map["value" := JsonText(Digits(count)), "unit" := JsonText(Plain(UnitText(unit)))])
  {
    assert UnitName(unit) == UnitText(unit);
    hide UnitName, UnitText;
  }

  lemma TimestampsOnTheWire(count: Int64, unit: TimeUnit, zone: Option<string>, date: Option<int>)
    requires date == DateInstant(count, unit, zone)
    ensures ScalarTransport(Timestamp(count, unit, zone))
         == Tagged("timestamp", map[
              "value" := JsonText(Digits(count)),
              "unit" := JsonText(Plain(UnitText(unit))),
              "zone" := if zone.None? then JsonNull else JsonText(Plain(zone.value)),
              "date" := if date.None? then JsonNull else JsonNumber(Integral(date.value))])
  {
    assert UnitName(unit) == UnitText(unit);
    hide UnitName, UnitText, DateInstant;
  }

  /** The pairs of a mapping, each as an array of two. */
  function PairList(pairs: seq<(Json, Json)>): Json {
    JsonArray(seq(|pairs|, i requires 0 <= i < |pairs| => JsonArray([pairs[i].0, pairs[i].1])))
  }

  /**
    Mappings: pairs behind a marker when a key is no string or one is a reserved name, and
    the members of an object otherwise.
   */
  lemma MappingOnTheWire(entries: seq<Entry>, pairs: seq<(Json, Json)>, depth: nat, maxDepth: nat)
    requires depth <= maxDepth && |pairs| == |entries|
    requires forall i :: 0 <= i < |entries| ==>
      && ValueToTransport(entries[i].key, depth + 1, maxDepth) == Some(pairs[i].0)
      && ValueToTransport(entries[i].value, depth + 1, maxDepth) == Some(pairs[i].1)
    ensures var wire := ValueToTransport(Mapping(entries), depth, maxDepth);
      if exists i :: 0 <= i < |entries| && !entries[i].key.Str? then
        wire == Some(Tagged("mapping", map["value" := PairList(pairs)]))
      else if exists i :: 0 <= i < |entries| && entries[i].key.text in {"__yggdryl_codec__", "__proto__"} then
        wire == Some(Tagged("object", map["value" := PairList(pairs)]))
      else
        && wire.Some? && wire.value.JsonObject?
        && wire.value.members.Keys == (set i | 0 <= i < |entries| :: entries[i].key.text)
        && (DistinctKeys(entries) ==>
              forall i :: 0 <= i < |entries| ==> wire.value.members[entries[i].key.text] == pairs[i].1)
  {
    hide ValueToTransport;
    forall i | 0 <= i < |entries| ensures EntryTransport(entries[i], depth + 1, maxDepth) == Some(pairs[i]) {
    }
    MappingStep(entries, depth, maxDepth);
    hide EntryTransport, IndexOf, DistinctKeys;
    if AllStrings(entries) && !HasReservedKey(entries) {
      MembersOnTheWire(entries, pairs, depth, maxDepth);
    } else {
      var listed := seq(|entries|, i requires 0 <= i < |entries| =>
        var pair := EntryTransport(entries[i], depth + 1, maxDepth).value;
        JsonArray([pair.0, pair.1]));
      assert JsonArray(listed) == PairList(pairs);
      MarkedPairs(entries, depth, maxDepth, listed);
    }
  }

  lemma MappingStep(entries: seq<Entry>, depth: nat, maxDepth: nat)
    requires depth <= maxDepth
    ensures ValueToTransport(Mapping(entries), depth, maxDepth) == MappingTransport(entries, depth, maxDepth)
  {
  }

  lemma MarkedPairs(entries: seq<Entry>, depth: nat, maxDepth: nat, listed: seq<Json>)
    requires forall i :: 0 <= i < |entries| ==> EntryTransport(entries[i], depth + 1, maxDepth).Some?
    requires |listed| == |entries| && !(AllStrings(entries) && !HasReservedKey(entries))
    requires forall i :: 0 <= i < |entries| ==>
      var pair := EntryTransport(entries[i], depth + 1, maxDepth).value;
      listed[i] == JsonArray([pair.0, pair.1])
    ensures MappingTransport(entries, depth, maxDepth)
         == Some(Tagged(if AllStrings(entries) then "object" else "mapping", map["value" := JsonArray(listed)]))
  {
    hide EntryTransport, AllStrings, HasReservedKey;
    var made := seq(|entries|, i requires 0 <= i < |entries| =>
      var pair := EntryTransport(entries[i], depth + 1, maxDepth).value;
      JsonArray([pair.0, pair.1]));
    assert made == listed;
  }

  lemma MembersOnTheWire(entries: seq<Entry>, pairs: seq<(Json, Json)>, depth: nat, maxDepth: nat)
    requires |pairs| == |entries| && AllStrings(entries) && !HasReservedKey(entries)
    requires forall i :: 0 <= i < |entries| ==> EntryTransport(entries[i], depth + 1, maxDepth) == Some(pairs[i])
    ensures var wire := MappingTransport(entries, depth, maxDepth);
      && wire.Some? && wire.value.JsonObject?
      && wire.value.members.Keys == (set i | 0 <= i < |entries| :: entries[i].key.text)
      && (DistinctKeys(entries) ==>
            forall i :: 0 <= i < |entries| ==> wire.value.members[entries[i].key.text] == pairs[i].1)
  {
    hide EntryTransport, IndexOf;
    assert StringKeys(entries) == set i | 0 <= i < |entries| :: entries[i].key.text;
    if DistinctKeys(entries) {
      forall i | 0 <= i < |entries| ensures IndexOf(entries, entries[i].key.text) == i {
        IndexOfOnly(entries, i);
      }
    }
  }
}
