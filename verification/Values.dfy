/**
  The native value every codec speaks (rust/src/generic/value.rs and temporal.rs) and
  the two ways it is compared here: as the core compares it, and with string-keyed
  mappings taken as finite maps.
 */
module Values {
  import opened Sequences

  type Int64 = n: int | -0x8000_0000_0000_0000 <= n < 0x8000_0000_0000_0000
  type UInt64 = n: int | 0 <= n < 0x1_0000_0000_0000_0000
  type Int128 = n: int |
    -0x8000_0000_0000_0000_0000_0000_0000_0000 <= n < 0x8000_0000_0000_0000_0000_0000_0000_0000
  type UInt128 = n: int | 0 <= n < 0x1_0000_0000_0000_0000_0000_0000_0000_0000

  /**
    A double, as far as the codec looks at one: what is integral carries its integer,
    any other finite number is told apart by an index.
   */
  datatype Double =
    | Integral(n: int)
    | Fraction(index: int)
    | NotANumber
    | PositiveInfinity
    | NegativeInfinity
    | NegativeZero

  datatype TimeUnit =
    | Second
    | Millisecond
    | Microsecond
    | Nanosecond
    | YearMonth
    | DayTime
    | MonthDayNano

  datatype Value =
    | Null
    | Bool(b: bool)
    | I64(i64: Int64)
    | U64(u64: UInt64)
    | I128(i128: Int128)
    | U128(u128: UInt128)
    | Float(float: Double)
    | Decimal(unscaled: Int128, scale: int)
    | Str(text: string)
    | Bytes(bytes: seq<Byte>)
    | Date(days: int)
    | Time(count: Int64, unit: TimeUnit)
    | Timestamp(count: Int64, unit: TimeUnit, zone: Option<string>)
    | Duration(count: Int64, unit: TimeUnit)
    | Sequence(items: seq<Value>)
    | Mapping(entries: seq<Entry>)
  {
    predicate IsInteger() { I64? || U64? || I128? || U128? }

    function Integer(): int
      requires IsInteger()
    {
      match this
      case I64(n) => n
      case U64(n) => n
      case I128(n) => n
      case U128(n) => n
    }
  }

  datatype Entry = Entry(key: Value, value: Value)

  /** Whether a mapping's keys are all strings. */
  predicate AllStrings(entries: seq<Entry>) {
    forall i :: 0 <= i < |entries| ==> entries[i].key.Str?
  }

  /** The nanoseconds of a unit; a calendar layout has no fixed width. */
  function NanosecondsPer(unit: TimeUnit): Option<int> {
    match unit
    case Second => Some(1_000_000_000)
    case Millisecond => Some(1_000_000)
    case Microsecond => Some(1_000)
    case Nanosecond => Some(1)
    case _ => None
  }

  /** What a count of a unit names: instants in nanoseconds, calendar layouts each by themselves. */
  datatype TemporalKey = TemporalKey(kind: int, count: int)

  function KeyOf(count: int, unit: TimeUnit): TemporalKey {
    match unit
    case YearMonth => TemporalKey(1, count)
    case DayTime => TemporalKey(2, count)
    case MonthDayNano => TemporalKey(3, count)
    case _ => TemporalKey(0, count * NanosecondsPer(unit).value)
  }

  /** `temporal_count_at`: a count in another unit, when it is exact and fits. */
  function CountAt(count: Int64, unit: TimeUnit, target: TimeUnit): (exact: Option<Int64>)
    ensures exact.Some? ==> KeyOf(exact.value, target) == KeyOf(count, unit)
  {
    if unit == target then Some(count)
    else
      var from, to := NanosecondsPer(unit), NanosecondsPer(target);
      if from.None? || to.None? || (count * from.value) % to.value != 0 then None
      else
        var quotient := count * from.value / to.value;
        if -0x8000_0000_0000_0000 <= quotient < 0x8000_0000_0000_0000 then Some(quotient) else None
  }

  /** The exact count is found whenever there is one that fits. */
  lemma CountAtFinds(count: Int64, unit: TimeUnit, target: TimeUnit, exact: Int64)
    ensures KeyOf(exact, target) == KeyOf(count, unit) <==> CountAt(count, unit, target) == Some(exact)
  {
    var from, to := NanosecondsPer(unit), NanosecondsPer(target);
    if from.Some? && to.Some? {
      Divides(count * from.value, target, exact);
      SameClock(count, unit, exact, target);
    } else {
      hide CountAt;
      CalendarCount(count, unit, target, exact);
    }
  }

  /** A quotient by the width of a unit is exact when it multiplies back. */
  lemma Divides(n: int, unit: TimeUnit, q: int)
    requires NanosecondsPer(unit).Some?
    ensures var width := NanosecondsPer(unit).value; n == q * width <==> n % width == 0 && n / width == q
  {
    match unit
    case Second => assert n == q * 1_000_000_000 <==> n % 1_000_000_000 == 0 && n / 1_000_000_000 == q;
    case Millisecond => assert n == q * 1_000_000 <==> n % 1_000_000 == 0 && n / 1_000_000 == q;
    case Microsecond => assert n == q * 1_000 <==> n % 1_000 == 0 && n / 1_000 == q;
    case Nanosecond => assert n == q * 1 <==> n % 1 == 0 && n / 1 == q;
    case _ => assert false;
  }

  lemma SameClock(count: int, unit: TimeUnit, other: int, target: TimeUnit)
    requires NanosecondsPer(unit).Some? && NanosecondsPer(target).Some?
    ensures KeyOf(other, target) == KeyOf(count, unit)
       <==> count * NanosecondsPer(unit).value == other * NanosecondsPer(target).value
    ensures unit == target ==> (count == other <==> KeyOf(other, target) == KeyOf(count, unit))
  {
  }

  lemma CalendarCount(count: Int64, unit: TimeUnit, target: TimeUnit, exact: Int64)
    requires NanosecondsPer(unit).None? || NanosecondsPer(target).None?
    ensures KeyOf(exact, target) == KeyOf(count, unit) <==> unit == target && exact == count
    ensures CountAt(count, unit, target) == if unit == target then Some(count) else None
  {
  }

  function Power10(n: nat): real {
    if n == 0 then 1.0 else 10.0 * Power10(n - 1)
  }

  /** The number a decimal names. */
  function DecimalNumber(unscaled: int, scale: int): real {
    if scale <= 0 then unscaled as real * Power10(-scale)
    else DecimalQuotient(unscaled, scale)
  }

  function DecimalQuotient(unscaled: int, scale: nat): real {
    if scale == 0 then unscaled as real else DecimalQuotient(unscaled, scale - 1) / 10.0
  }

  /**
    What a value names. Integers are one kind whatever their width, decimals and
    temporals count by what they name, and a mapping is the sequence of its entries: two
    values are equal to the core exactly when they have the same name.
   */
  datatype Name =
    | NullName
    | BoolName(b: bool)
    | IntegerName(n: int)
    | FloatName(float: Double)
    | DecimalName(number: real)
    | StringName(text: string)
    | BytesName(bytes: seq<Byte>)
    | DateName(days: int)
    | TimeName(key: TemporalKey)
    | TimestampName(key: TemporalKey, zone: Option<string>)
    | DurationName(key: TemporalKey)
    | SequenceName(items: seq<Name>)
    | MappingName(entries: seq<NameEntry>)
    | RecordName(fields: map<string, Name>)

  datatype NameEntry = NameEntry(key: Name, value: Name)

  /** The names of everything that holds no other value. */
  function ScalarName(v: Value): Name
    requires !v.Sequence? && !v.Mapping?
  {
    match v
    case Null => NullName
    case Bool(b) => BoolName(b)
    case I64(n) => IntegerName(n)
    case U64(n) => IntegerName(n)
    case I128(n) => IntegerName(n)
    case U128(n) => IntegerName(n)
    case Float(f) => FloatName(f)
    case Decimal(unscaled, scale) => DecimalName(DecimalNumber(unscaled, scale))
    case Str(s) => StringName(s)
    case Bytes(bytes) => BytesName(bytes)
    case Date(days) => DateName(days)
    case Time(count, unit) => TimeName(KeyOf(count, unit))
    case Timestamp(count, unit, zone) => TimestampName(KeyOf(count, unit), zone)
    case Duration(count, unit) => DurationName(KeyOf(count, unit))
  }

  /** The core's own equality, `Value: PartialEq`: mappings compare entry by entry, in order. */
  function CoreName(v: Value): Name {
    match v
    case Sequence(items) => SequenceName(seq(|items|, i requires 0 <= i < |items| => CoreName(items[i])))
    case Mapping(entries) =>
      MappingName(seq(|entries|, i requires 0 <= i < |entries| =>
        NameEntry(CoreName(entries[i].key), CoreName(entries[i].value))))
    case _ => ScalarName(v)
  }

  /** The last entry under a string key. */
  function IndexOf(entries: seq<Entry>, key: string): (i: nat)
    requires exists i :: 0 <= i < |entries| && entries[i].key == Str(key)
    ensures i < |entries| && entries[i].key == Str(key)
  {
    var n := |entries| - 1;
    if entries[n].key == Str(key) then n
    else
      assert exists i :: 0 <= i < n && entries[..n][i].key == Str(key) by {
        var i :| 0 <= i < |entries| && entries[i].key == Str(key);
        assert entries[..n][i].key == Str(key);
      }
      IndexOf(entries[..n], key)
  }

  function StringKeys(entries: seq<Entry>): set<string> {
    set i | 0 <= i < |entries| && entries[i].key.Str? :: entries[i].key.text
  }

  /** Values with string-keyed mappings as finite maps, the order of whose entries means nothing. */
  function MapName(v: Value): Name {
    match v
    case Sequence(items) => SequenceName(seq(|items|, i requires 0 <= i < |items| => MapName(items[i])))
    case Mapping(entries) =>
      if AllStrings(entries) then RecordName(FieldNames(entries))
      else
        MappingName(seq(|entries|, i requires 0 <= i < |entries| => EntryName(entries[i])))
    case _ => ScalarName(v)
  }

  function EntryName(entry: Entry): NameEntry {
    NameEntry(MapName(entry.key), MapName(entry.value))
  }

  /** The fields of a string-keyed mapping. */
  function FieldNames(entries: seq<Entry>): (fields: map<string, Name>)
    ensures fields.Keys == StringKeys(entries)
  {
    map k | k in StringKeys(entries) :: EntryName(entries[IndexOf(entries, k)]).value
  }

  /** No mapping holds a key twice, as the core's constructor ensures. */
  predicate UniqueKeys(v: Value) {
    match v
    case Sequence(items) => forall i :: 0 <= i < |items| ==> UniqueKeys(items[i])
    case Mapping(entries) =>
      && (forall i, j :: 0 <= i < j < |entries| ==> CoreName(entries[i].key) != CoreName(entries[j].key))
      && (forall i :: 0 <= i < |entries| ==> UniqueKeys(entries[i].key) && UniqueKeys(entries[i].value))
    case _ => true
  }

  // ----- Height -----

  function Max(ns: seq<nat>): (m: nat)
    ensures forall i :: 0 <= i < |ns| ==> ns[i] <= m
    ensures ns == [] ==> m == 0
    ensures ns != [] ==> m in ns
  {
    if ns == [] then 0
    else
      var rest := Max(ns[1..]);
      if |ns| == 1 || rest <= ns[0] then ns[0] else rest
  }

  /** How deep a value nests: 0 for a scalar or an empty container. */
  function Height(v: Value): nat {
    match v
    case Sequence(items) =>
      if items == [] then 0 else 1 + Max(seq(|items|, i requires 0 <= i < |items| => Height(items[i])))
    case Mapping(entries) =>
      if entries == [] then 0
      else
        1 + Max(seq(|entries|, i requires 0 <= i < |entries| =>
          if Height(entries[i].key) <= Height(entries[i].value) then Height(entries[i].value)
          else Height(entries[i].key)))
    case _ => 0
  }

  lemma SequenceHeight(items: seq<Value>, d: nat)
    ensures Height(Sequence(items)) <= d
       <==> items == [] || (0 < d && forall i :: 0 <= i < |items| ==> Height(items[i]) <= d - 1)
  {
    if items != [] {
      var heights := seq(|items|, i requires 0 <= i < |items| => Height(items[i]));
      assert forall i :: 0 <= i < |items| ==> heights[i] == Height(items[i]);
    }
  }

  lemma MappingHeight(entries: seq<Entry>, d: nat)
    ensures Height(Mapping(entries)) <= d
       <==> entries == []
            || (0 < d && forall i :: 0 <= i < |entries| ==>
                  Height(entries[i].key) <= d - 1 && Height(entries[i].value) <= d - 1)
  {
    if entries != [] {
      var heights := seq(|entries|, i requires 0 <= i < |entries| =>
        if Height(entries[i].key) <= Height(entries[i].value) then Height(entries[i].value)
        else Height(entries[i].key));
      assert forall i :: 0 <= i < |entries| ==> heights[i] >= Height(entries[i].key);
      assert forall i :: 0 <= i < |entries| ==> heights[i] >= Height(entries[i].value);
    }
  }
}
