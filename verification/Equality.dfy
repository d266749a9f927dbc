/**
  Equality of values, told pair by pair: the core's own (`Ord for Value` of
  rust/src/generic/value.rs), and equality with string-keyed mappings as finite maps. Both
  are what having the same name means.
 */
module Equality {
  import opened Sequences
  import opened Values
  import opened Transport

  // ----- Numbers and instants -----

  function Ten(n: nat): int {
    if n == 0 then 1 else 10 * Ten(n - 1)
  }

  /** Decimals are one number when they agree at a scale that both can be written at. */
  ghost predicate SameDecimal(a: int, scaleA: int, b: int, scaleB: int) {
    exists scale :: scaleA <= scale && scaleB <= scale && 0 <= scale && AgreeAt(a, scaleA, b, scaleB, scale)
  }

  predicate AgreeAt(a: int, scaleA: int, b: int, scaleB: int, scale: int)
    requires scaleA <= scale && scaleB <= scale
  {
    a * Ten(scale - scaleA) == b * Ten(scale - scaleB)
  }

  function Width(unit: TimeUnit): int {
    match unit
    case Second => 1_000_000_000
    case Millisecond => 1_000_000
    case Microsecond => 1_000
    case Nanosecond => 1
    case _ => 0
  }

  /** Counts of seconds and their fractions by the time they span, calendar counts unit by unit. */
  predicate SameTime(a: int, unitA: TimeUnit, b: int, unitB: TimeUnit) {
    if Width(unitA) > 0 && Width(unitB) > 0 then a * Width(unitA) == b * Width(unitB)
    else unitA == unitB && a == b
  }

  lemma SameTimeIff(a: int, unitA: TimeUnit, b: int, unitB: TimeUnit)
    ensures KeyOf(a, unitA) == KeyOf(b, unitB) <==> SameTime(a, unitA, b, unitB)
  {
  }

  lemma {:induction false} PowersAgree(n: nat)
    ensures Power10(n) == Ten(n) as real && Ten(n) > 0
  {
    if n > 0 { PowersAgree(n - 1); }
  }

  lemma {:induction false} TenAdds(m: nat, n: nat)
    ensures Ten(m + n) == Ten(m) * Ten(n)
  {
    if m > 0 { TenAdds(m - 1, n); }
  }

  lemma {:induction false} QuotientScaled(a: int, scale: nat)
    ensures DecimalQuotient(a, scale) * Ten(scale) as real == a as real
  {
    if scale > 0 {
      QuotientScaled(a, scale - 1);
      var q, t := DecimalQuotient(a, scale - 1), Ten(scale - 1) as real;
      assert q / 10.0 * (10.0 * t) == q * t;
    }
  }

  lemma Cast(x: int, y: int)
    ensures (x * y) as real == x as real * y as real
  {
  }

  lemma Products(x: real, y: real, z: real)
    ensures x * y * z == x * (y * z) && x * y * z == x * (z * y)
  {
  }

  /** A decimal at a scale it can be written at is a whole number. */
  lemma NumberScaled(a: int, own: int, scale: nat)
    requires own <= scale
    ensures DecimalNumber(a, own) * Ten(scale) as real == (a * Ten(scale - own)) as real
  {
    hide Ten, Power10, DecimalQuotient;
    Cast(a, Ten(scale - own));
    if own <= 0 {
      PowersAgree(-own);
      TenAdds(scale, -own);
      Cast(Ten(scale), Ten(-own));
      Products(a as real, Ten(-own) as real, Ten(scale) as real);
    } else {
      QuotientScaled(a, own);
      TenAdds(own, scale - own);
      Cast(Ten(own), Ten(scale - own));
      Products(DecimalQuotient(a, own), Ten(own) as real, Ten(scale - own) as real);
    }
  }

  lemma AgreeIff(a: int, scaleA: int, b: int, scaleB: int, scale: nat)
    requires scaleA <= scale && scaleB <= scale
    ensures DecimalNumber(a, scaleA) == DecimalNumber(b, scaleB) <==> AgreeAt(a, scaleA, b, scaleB, scale)
  {
    NumberScaled(a, scaleA, scale);
    NumberScaled(b, scaleB, scale);
    PowersAgree(scale);
    Cancelled(DecimalNumber(a, scaleA), DecimalNumber(b, scaleB), Ten(scale) as real);
  }

  lemma Cancelled(x: real, y: real, t: real)
    requires t > 0.0
    ensures x * t == y * t <==> x == y
  {
    if x * t == y * t {
      assert (x - y) * t == 0.0;
    }
  }

  lemma SameDecimalIff(a: int, scaleA: int, b: int, scaleB: int)
    ensures DecimalNumber(a, scaleA) == DecimalNumber(b, scaleB) <==> SameDecimal(a, scaleA, b, scaleB)
  {
    hide DecimalNumber, AgreeAt;
    var scale := if scaleA <= scaleB then scaleB else scaleA;
    var common := if scale < 0 then 0 else scale;
    AgreeIff(a, scaleA, b, scaleB, common);
    if SameDecimal(a, scaleA, b, scaleB) {
      var at :| scaleA <= at && scaleB <= at && 0 <= at && AgreeAt(a, scaleA, b, scaleB, at);
      AgreeIff(a, scaleA, b, scaleB, at);
    }
  }

  // ----- Values without children -----

  /** Two values without children are equal: one kind, one payload; integers of any width by their number. */
  ghost predicate SameScalar(a: Value, b: Value)
    requires !a.Sequence? && !a.Mapping?
  {
    match a
    case I64(n) => b.IsInteger() && b.Integer() == n
    case U64(n) => b.IsInteger() && b.Integer() == n
    case I128(n) => b.IsInteger() && b.Integer() == n
    case U128(n) => b.IsInteger() && b.Integer() == n
    case Decimal(unscaled, scale) => b.Decimal? && SameDecimal(unscaled, scale, b.unscaled, b.scale)
    case Time(count, unit) => b.Time? && SameTime(count, unit, b.count, b.unit)
    case Duration(count, unit) => b.Duration? && SameTime(count, unit, b.count, b.unit)
    case Timestamp(count, unit, zone) => b.Timestamp? && SameTime(count, unit, b.count, b.unit) && zone == b.zone
    case _ => a == b
  }

  lemma ScalarNames(a: Value, b: Value)
    requires !a.Sequence? && !a.Mapping? && !b.Sequence? && !b.Mapping?
    ensures ScalarName(a) == ScalarName(b) <==> SameScalar(a, b)
  {
    hide KeyOf, DecimalNumber, SameDecimal, SameTime;
    if a.Decimal? && b.Decimal? { SameDecimalIff(a.unscaled, a.scale, b.unscaled, b.scale); }
    if a.Time? && b.Time? { SameTimeIff(a.count, a.unit, b.count, b.unit); }
    if a.Duration? && b.Duration? { SameTimeIff(a.count, a.unit, b.count, b.unit); }
    if a.Timestamp? && b.Timestamp? { SameTimeIff(a.count, a.unit, b.count, b.unit); }
  }

  // ----- The core's equality -----

  /** Containers are equal item by item, and mappings entry by entry, in order. */
  ghost predicate CoreEqual(a: Value, b: Value)
    decreases a
  {
    match a
    case Sequence(items) =>
      && b.Sequence? && |b.items| == |items|
      && forall i :: 0 <= i < |items| ==> CoreEqual(items[i], b.items[i])
    case Mapping(entries) =>
      && b.Mapping? && |b.entries| == |entries|
      && forall i :: 0 <= i < |entries| ==> EntryEqual(entries[i], b.entries[i])
    case _ => !b.Sequence? && !b.Mapping? && SameScalar(a, b)
  }

  ghost predicate EntryEqual(a: Entry, b: Entry)
    decreases a
  {
    CoreEqual(a.key, b.key) && CoreEqual(a.value, b.value)
  }

  /** Values have the same name exactly when the core finds them equal. */
  lemma {:induction false} CoreEqualIff(a: Value, b: Value)
    ensures CoreName(a) == CoreName(b) <==> CoreEqual(a, b)
    decreases a
  {
    hide ScalarName, SameScalar;
    ContainerNames(a, b);
    if a.Sequence? && b.Sequence? && |a.items| == |b.items| {
      forall i | 0 <= i < |a.items|
        ensures CoreName(a.items[i]) == CoreName(b.items[i]) <==> CoreEqual(a.items[i], b.items[i])
      {
        CoreEqualIff(a.items[i], b.items[i]);
      }
      hide CoreName;
    } else if a.Mapping? && b.Mapping? && |a.entries| == |b.entries| {
      forall i | 0 <= i < |a.entries|
        ensures CoreName(a.entries[i].key) == CoreName(b.entries[i].key)
                && CoreName(a.entries[i].value) == CoreName(b.entries[i].value)
           <==> EntryEqual(a.entries[i], b.entries[i])
      {
        CoreEqualIff(a.entries[i].key, b.entries[i].key);
        CoreEqualIff(a.entries[i].value, b.entries[i].value);
      }
      hide CoreName, EntryEqual;
    } else if !a.Sequence? && !a.Mapping? && !b.Sequence? && !b.Mapping? {
      ScalarNames(a, b);
    } else {
      ContainersApart(a, b);
      hide CoreName;
    }
  }

  lemma ContainerNames(a: Value, b: Value)
    ensures a.Sequence? && b.Sequence? && |a.items| == |b.items| ==>
      (CoreName(a) == CoreName(b) <==>
         forall i :: 0 <= i < |a.items| ==> CoreName(a.items[i]) == CoreName(b.items[i]))
    ensures a.Mapping? && b.Mapping? && |a.entries| == |b.entries| ==>
      (CoreName(a) == CoreName(b) <==>
         forall i :: 0 <= i < |a.entries| ==>
           && CoreName(a.entries[i].key) == CoreName(b.entries[i].key)
           && CoreName(a.entries[i].value) == CoreName(b.entries[i].value))
  {
    hide ScalarName;
    if a.Sequence? && b.Sequence? && |a.items| == |b.items| {
      ItemNames(a, b);
    }
    if a.Mapping? && b.Mapping? && |a.entries| == |b.entries| {
      EntryNames(a, b);
    }
  }

  lemma ItemNames(a: Value, b: Value)
    requires a.Sequence? && b.Sequence? && |a.items| == |b.items|
    ensures CoreName(a) == CoreName(b) <==>
      forall i :: 0 <= i < |a.items| ==> CoreName(a.items[i]) == CoreName(b.items[i])
  {
    hide ScalarName;
    var x, y := CoreName(a).items, CoreName(b).items;
    assert forall i :: 0 <= i < |x| ==> x[i] == CoreName(a.items[i]) && y[i] == CoreName(b.items[i]);
  }

  lemma EntryNames(a: Value, b: Value)
    requires a.Mapping? && b.Mapping? && |a.entries| == |b.entries|
    ensures CoreName(a) == CoreName(b) <==>
      forall i :: 0 <= i < |a.entries| ==>
        && CoreName(a.entries[i].key) == CoreName(b.entries[i].key)
        && CoreName(a.entries[i].value) == CoreName(b.entries[i].value)
  {
    hide ScalarName;
    var x, y := CoreName(a).entries, CoreName(b).entries;
    assert forall i :: 0 <= i < |x| ==>
      && x[i] == NameEntry(CoreName(a.entries[i].key), CoreName(a.entries[i].value))
      && y[i] == NameEntry(CoreName(b.entries[i].key), CoreName(b.entries[i].value));
  }

  lemma ContainersApart(a: Value, b: Value)
    requires a.Sequence? || a.Mapping? || b.Sequence? || b.Mapping?
    requires !(a.Sequence? && b.Sequence? && |a.items| == |b.items|)
    requires !(a.Mapping? && b.Mapping? && |a.entries| == |b.entries|)
    ensures CoreName(a) != CoreName(b)
  {
    NameShape(a);
    NameShape(b);
    hide CoreName;
  }

  lemma NameShape(v: Value)
    ensures CoreName(v).SequenceName? <==> v.Sequence?
    ensures CoreName(v).MappingName? <==> v.Mapping?
    ensures v.Sequence? ==> |CoreName(v).items| == |v.items|
    ensures v.Mapping? ==> |CoreName(v).entries| == |v.entries|
  {
  }

  /** `Value::from_mapping` refuses exactly the mappings with two equal keys. */
  lemma DistinctKeysIff(entries: seq<Entry>)
    ensures DistinctKeys(entries) <==>
      forall i, j :: 0 <= i < j < |entries| ==> !CoreEqual(entries[i].key, entries[j].key)
  {
    hide CoreName, CoreEqual;
    forall i, j | 0 <= i < j < |entries|
      ensures CoreName(entries[i].key) == CoreName(entries[j].key) <==> CoreEqual(entries[i].key, entries[j].key)
    {
      CoreEqualIff(entries[i].key, entries[j].key);
    }
  }

  // ----- Equality with string-keyed mappings as finite maps -----

  ghost predicate MapEqual(a: Value, b: Value)
    decreases a
  {
    match a
    case Sequence(items) =>
      && b.Sequence? && |b.items| == |items|
      && forall i :: 0 <= i < |items| ==> MapEqual(items[i], b.items[i])
    case Mapping(entries) =>
      && b.Mapping? && (AllStrings(entries) <==> AllStrings(b.entries))
      && if AllStrings(entries) then SameFields(entries, b.entries)
         else |b.entries| == |entries| && forall i :: 0 <= i < |entries| ==> EntryMapEqual(entries[i], b.entries[i])
    case _ => !b.Sequence? && !b.Mapping? && SameScalar(a, b)
  }

  ghost predicate EntryMapEqual(a: Entry, b: Entry)
    decreases a
  {
    MapEqual(a.key, b.key) && MapEqual(a.value, b.value)
  }

  /** The same names, and equal values under the same name, whatever the order. */
  ghost predicate SameFields(a: seq<Entry>, b: seq<Entry>)
    decreases a
  {
    && SameNames(a, b)
    && forall i, j :: 0 <= i < |a| && 0 <= j < |b| && a[i].key == b[j].key ==> FieldEqual(a[i], b[j])
  }

  predicate SameNames(a: seq<Entry>, b: seq<Entry>) {
    && (forall i :: 0 <= i < |a| ==> Holds(b, a[i].key))
    && (forall j :: 0 <= j < |b| ==> Holds(a, b[j].key))
  }

  predicate Holds(entries: seq<Entry>, key: Value) {
    exists i :: 0 <= i < |entries| && entries[i].key == key
  }

  ghost predicate FieldEqual(a: Entry, b: Entry)
    decreases a
  {
    MapEqual(a.value, b.value)
  }

  /** Values have the same name as finite maps exactly when they are equal as such. */
  lemma {:induction false} MapEqualIff(a: Value, b: Value)
    requires UniqueKeys(a) && UniqueKeys(b)
    ensures MapName(a) == MapName(b) <==> MapEqual(a, b)
    decreases a
  {
    hide ScalarName, SameScalar, CoreName, SameFields, FieldNames, MapName, EntryName;
    if a.Sequence? && b.Sequence? && |a.items| == |b.items| {
      forall i | 0 <= i < |a.items|
        ensures MapName(a.items[i]) == MapName(b.items[i]) <==> MapEqual(a.items[i], b.items[i])
      {
        MapEqualIff(a.items[i], b.items[i]);
      }
      MapItems(a, b);
    } else if a.Mapping? && b.Mapping? && AllStrings(a.entries) && AllStrings(b.entries) {
      forall i, j | 0 <= i < |a.entries| && 0 <= j < |b.entries|
        ensures MapName(a.entries[i].value) == MapName(b.entries[j].value) <==> FieldEqual(a.entries[i], b.entries[j])
      {
        MapEqualIff(a.entries[i].value, b.entries[j].value);
      }
      RecordNames(a, b);
      FieldsEqualIff(a.entries, b.entries);
    } else if a.Mapping? && b.Mapping? && !AllStrings(a.entries) && !AllStrings(b.entries)
              && |a.entries| == |b.entries| {
      forall i | 0 <= i < |a.entries|
        ensures MapName(a.entries[i].key) == MapName(b.entries[i].key)
                && MapName(a.entries[i].value) == MapName(b.entries[i].value)
           <==> EntryMapEqual(a.entries[i], b.entries[i])
      {
        MapEqualIff(a.entries[i].key, b.entries[i].key);
        MapEqualIff(a.entries[i].value, b.entries[i].value);
      }
      MapEntries(a, b);
      hide EntryMapEqual;
    } else if !a.Sequence? && !a.Mapping? && !b.Sequence? && !b.Mapping? {
      ScalarNames(a, b);
      FlatName(a);
      FlatName(b);
    } else {
      MapShape(a);
      MapShape(b);
    }
  }

  lemma FlatName(v: Value)
    requires !v.Sequence? && !v.Mapping?
    ensures MapName(v) == ScalarName(v)
  {
  }

  lemma MapShape(v: Value)
    ensures MapName(v).SequenceName? <==> v.Sequence?
    ensures MapName(v).RecordName? <==> v.Mapping? && AllStrings(v.entries)
    ensures MapName(v).MappingName? <==> v.Mapping? && !AllStrings(v.entries)
    ensures v.Sequence? ==> |MapName(v).items| == |v.items|
    ensures v.Mapping? && !AllStrings(v.entries) ==> |MapName(v).entries| == |v.entries|
  {
    hide FieldNames, EntryName;
  }

  lemma MapItems(a: Value, b: Value)
    requires a.Sequence? && b.Sequence? && |a.items| == |b.items|
    ensures MapName(a) == MapName(b) <==>
      forall i :: 0 <= i < |a.items| ==> MapName(a.items[i]) == MapName(b.items[i])
  {
    var x, y := MapName(a).items, MapName(b).items;
    assert forall i :: 0 <= i < |x| ==> x[i] == MapName(a.items[i]) && y[i] == MapName(b.items[i]);
  }

  lemma MapEntries(a: Value, b: Value)
    requires a.Mapping? && b.Mapping? && !AllStrings(a.entries) && !AllStrings(b.entries) && |a.entries| == |b.entries|
    ensures MapName(a) == MapName(b) <==>
      forall i :: 0 <= i < |a.entries| ==>
        && MapName(a.entries[i].key) == MapName(b.entries[i].key)
        && MapName(a.entries[i].value) == MapName(b.entries[i].value)
  {
    hide ScalarName, FieldNames, AllStrings;
    var x, y := MapName(a).entries, MapName(b).entries;
    assert forall i :: 0 <= i < |x| ==> x[i] == EntryName(a.entries[i]) && y[i] == EntryName(b.entries[i]);
  }

  lemma RecordNames(a: Value, b: Value)
    requires a.Mapping? && b.Mapping? && AllStrings(a.entries) && AllStrings(b.entries)
    ensures MapName(a) == MapName(b) <==> FieldNames(a.entries) == FieldNames(b.entries)
  {
    hide FieldNames, AllStrings;
  }

  lemma NamesIn(entries: seq<Entry>, i: nat)
    requires AllStrings(entries) && DistinctKeys(entries) && i < |entries|
    ensures entries[i].key.text in FieldNames(entries)
    ensures FieldNames(entries)[entries[i].key.text] == MapName(entries[i].value)
  {
    hide MapName, DistinctKeys, IndexOf;
    IndexOfOnly(entries, i);
    assert entries[i].key.text in StringKeys(entries);
  }

  lemma HoldsIff(entries: seq<Entry>, name: string)
    requires AllStrings(entries)
    ensures Holds(entries, Str(name)) <==> name in FieldNames(entries)
  {
    hide MapName;
    if Holds(entries, Str(name)) {
      var i :| 0 <= i < |entries| && entries[i].key == Str(name);
      assert name in StringKeys(entries);
    }
  }

  lemma SameNamesIff(a: seq<Entry>, b: seq<Entry>)
    requires AllStrings(a) && AllStrings(b)
    ensures SameNames(a, b) <==> FieldNames(a).Keys == FieldNames(b).Keys
  {
    hide FieldNames, Holds;
    forall name ensures Holds(a, Str(name)) <==> name in FieldNames(a)
      ensures Holds(b, Str(name)) <==> name in FieldNames(b)
    {
      HoldsIff(a, name);
      HoldsIff(b, name);
    }
    forall i | 0 <= i < |a| ensures Holds(a, a[i].key) { assert a[i].key == Str(a[i].key.text); HoldsAt(a, i); }
    forall i | 0 <= i < |b| ensures Holds(b, b[i].key) { assert b[i].key == Str(b[i].key.text); HoldsAt(b, i); }
    if SameNames(a, b) {
      forall name ensures name in FieldNames(a) <==> name in FieldNames(b) {
        if name in FieldNames(a) { var i := NameAt(a, name); assert Holds(b, a[i].key); }
        if name in FieldNames(b) { var j := NameAt(b, name); assert Holds(a, b[j].key); }
      }
    }
  }

  lemma HoldsAt(entries: seq<Entry>, i: nat)
    requires i < |entries|
    ensures Holds(entries, entries[i].key)
  {
  }

  lemma NameAt(entries: seq<Entry>, name: string) returns (i: nat)
    requires AllStrings(entries) && name in FieldNames(entries)
    ensures i < |entries| && entries[i].key == Str(name)
  {
    hide MapName;
    i :| 0 <= i < |entries| && entries[i].key.Str? && entries[i].key.text == name;
  }

  predicate ValuesAlike(a: seq<Entry>, b: seq<Entry>) {
    forall i, j :: 0 <= i < |a| && 0 <= j < |b| && a[i].key == b[j].key ==> MapName(a[i].value) == MapName(b[j].value)
  }

  lemma ValuesAlikeIff(a: seq<Entry>, b: seq<Entry>)
    requires AllStrings(a) && AllStrings(b) && DistinctKeys(a) && DistinctKeys(b)
    requires FieldNames(a).Keys == FieldNames(b).Keys
    ensures ValuesAlike(a, b) <==> FieldNames(a) == FieldNames(b)
  {
    hide MapName, DistinctKeys, FieldNames, AllStrings;
    if FieldNames(a) == FieldNames(b) {
      forall i, j | 0 <= i < |a| && 0 <= j < |b| && a[i].key == b[j].key
        ensures MapName(a[i].value) == MapName(b[j].value)
      {
        NamesIn(a, i);
        NamesIn(b, j);
      }
    }
    if ValuesAlike(a, b) {
      forall name | name in FieldNames(a) ensures FieldNames(a)[name] == FieldNames(b)[name] {
        var i := NameAt(a, name);
        var j := NameAt(b, name);
        NamesIn(a, i);
        NamesIn(b, j);
      }
    }
  }

  lemma FieldsEqualIff(a: seq<Entry>, b: seq<Entry>)
    requires AllStrings(a) && AllStrings(b) && DistinctKeys(a) && DistinctKeys(b)
    requires forall i, j :: 0 <= i < |a| && 0 <= j < |b| ==>
      (MapName(a[i].value) == MapName(b[j].value) <==> FieldEqual(a[i], b[j]))
    ensures FieldNames(a) == FieldNames(b) <==> SameFields(a, b)
  {
    hide MapName, FieldEqual, DistinctKeys, FieldNames, SameNames;
    SameNamesIff(a, b);
    if FieldNames(a).Keys == FieldNames(b).Keys {
      ValuesAlikeIff(a, b);
    }
  }
}
