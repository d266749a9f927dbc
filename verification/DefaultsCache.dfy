/**
  The caches of node/defaults.js: per Field, the schema its default value is projected
  through and the frozen hint object handed out, against computing both afresh.

  The native side is a parameter: what it computes from a Field or a datatype, None where
  it throws, and when it calls two of them equal.
 */
module DefaultsCache {
  import opened Sequences

  datatype FieldState<D, R> = FieldState(dataType: D, nullable: bool, rest: R)

  datatype Native<!D, !R, !S, !V> = Native(
    schema: FieldState<D, R> -> Option<S>,
    project: (FieldState<D, R>, S) -> Option<V>,
    hint: D -> Option<nat>,
    kind: D -> string,
    fieldEquals: (FieldState<D, R>, FieldState<D, R>) -> bool,
    typeEquals: (D, D) -> bool)

  /** Equal Fields have one schema, and equal datatypes one hint. */
  ghost predicate Sound<D(!new), R(!new), S, V>(native: Native<D, R, S, V>) {
    && (forall a, b :: native.fieldEquals(a, b) ==> native.schema(a) == native.schema(b))
    && (forall a, b :: native.typeEquals(a, b) ==> native.hint(a) == native.hint(b) && native.kind(a) == native.kind(b))
    && (forall a :: native.fieldEquals(a, a))
    && (forall a :: native.typeEquals(a, a))
  }

  /** Equality itself is sound, whatever the rest of the native side computes. */
  lemma EqualityIsSound<D(!new), R(!new), S, V>(
    schema: FieldState<D, R> -> Option<S>,
    project: (FieldState<D, R>, S) -> Option<V>,
    hint: D -> Option<nat>,
    kind: D -> string)
    ensures Sound(Native(schema, project, hint, kind, (a: FieldState<D, R>, b) => a == b, (a: D, b) => a == b))
  {
  }

  datatype Constructor =
    | NoConstructor
    | BooleanConstructor
    | NumberConstructor
    | BigIntConstructor
    | ArrayConstructor
    | BufferConstructor
    | StringConstructor
    | ObjectConstructor
    | MapConstructor

  /** `hintConstructors`: the table that the native code is an index into, with its unused place. */
  function ConstructorAt(code: nat): Option<Constructor> {
    match code
    case 0 => Some(NoConstructor)
    case 1 => Some(BooleanConstructor)
    case 2 => Some(NumberConstructor)
    case 3 => Some(BigIntConstructor)
    case 4 => Some(ArrayConstructor)
    case 5 => Some(BufferConstructor)
    case 6 => Some(StringConstructor)
    case 7 => Some(ObjectConstructor)
    case 9 => Some(MapConstructor)
    case _ => None
  }

  datatype Hint = Hint(kind: string, made: Constructor, nullable: bool)

  /** A frozen object: what it says, and which object it is. */
  datatype HintObject = HintObject(serial: nat, hint: Hint)

  /** What `frozenHint` computes, before it makes the object. */
  function FreshHint<D, R, S, V>(native: Native<D, R, S, V>, dataType: D, nullable: bool): Option<Hint> {
    var code := native.hint(dataType);
    if code.None? || ConstructorAt(code.value).None? then None
    else Some(Hint(native.kind(dataType), ConstructorAt(code.value).value, nullable))
  }

  function FreshValue<D, R, S, V>(native: Native<D, R, S, V>, state: FieldState<D, R>): Option<V> {
    var schema := native.schema(state);
    if schema.None? then None else native.project(state, schema.value)
  }

  // ----- Entries -----

  datatype FieldEntry<D, R, S> = FieldEntry(
    schema: Option<S>,
    snapshot: Option<FieldState<D, R>>,
    hint: Option<HintObject>,
    hintDataType: Option<D>,
    hintNullable: Option<bool>)

  function NewEntry<D, R, S>(): FieldEntry<D, R, S> {
    FieldEntry(None, None, None, None, None)
  }

  /** What the cached schema and hint are of. */
  ghost predicate EntryValid<D, R, S, V>(native: Native<D, R, S, V>, entry: FieldEntry<D, R, S>) {
    entry.snapshot.Some? ==> entry.schema.Some? && entry.schema == native.schema(entry.snapshot.value)
  }

  ghost predicate HintValid<D, R, S, V>(native: Native<D, R, S, V>, entry: FieldEntry<D, R, S>) {
    entry.hint.Some? ==>
      && entry.hintDataType.Some? && entry.hintNullable.Some?
      && FreshHint(native, entry.hintDataType.value, entry.hintNullable.value) == Some(entry.hint.value.hint)
  }

  /** Whether `defaultJSHint` hands out the cached object. */
  predicate HintHit<D, R, S, V>(native: Native<D, R, S, V>, entry: FieldEntry<D, R, S>, state: FieldState<D, R>) {
    && entry.hint.Some? && entry.hintNullable == Some(state.nullable)
    && entry.hintDataType.Some? && native.typeEquals(state.dataType, entry.hintDataType.value)
  }

  /** One `Field.defaultJSHint` on an entry: the entry after, the objects issued so far, and the answer. */
  function HintStep<D, R, S, V>(native: Native<D, R, S, V>, entry: FieldEntry<D, R, S>, issued: nat,
                               state: FieldState<D, R>)
    : (FieldEntry<D, R, S>, nat, Option<HintObject>)
  {
    if HintHit(native, entry, state) then (entry, issued, entry.hint)
    else
      var asked := entry.(hintDataType := Some(state.dataType)).(hintNullable := Some(state.nullable));
      var made := FreshHint(native, state.dataType, state.nullable);
      if made.None? then (asked, issued, None)
      else
        var frozen := Some(HintObject(issued, made.value));
        (asked.(hint := frozen), issued + 1, frozen)
  }

  /** The entry after one `Field.defaultJSValue`. */
  function ValueStep<D, R, S, V>(native: Native<D, R, S, V>, entry: FieldEntry<D, R, S>, state: FieldState<D, R>)
    : FieldEntry<D, R, S>
  {
    if entry.snapshot.Some? && native.fieldEquals(state, entry.snapshot.value) then entry
    else if native.schema(state).None? then entry
    else entry.(schema := native.schema(state)).(snapshot := Some(state))
  }

  /** What `Field.defaultJSValue` gives on an entry. */
  function CachedValue<D, R, S, V>(native: Native<D, R, S, V>, entry: FieldEntry<D, R, S>,
                                  state: FieldState<D, R>): Option<V> {
    if entry.snapshot.Some? && native.fieldEquals(state, entry.snapshot.value) then
      if entry.schema.Some? then native.project(state, entry.schema.value) else None
    else FreshValue(native, state)
  }

  /** Every datatype has a hint, or none has. */
  ghost predicate Uniform<D(!new), R, S, V>(native: Native<D, R, S, V>) {
    forall a, b, m, n :: FreshHint(native, a, m).Some? ==> FreshHint(native, b, n).Some?
  }

  function Says(answer: Option<HintObject>): Option<Hint> {
    if answer.None? then None else Some(answer.value.hint)
  }

  // ----- The caches -----

  class DefaultsCache<D(!new), R(!new), S(!new), V(!new)> {
    const native: Native<D, R, S, V>
    var entries: map<nat, FieldEntry<D, R, S>>
    var issued: nat

    constructor (native: Native<D, R, S, V>)
      ensures this.native == native && entries == map[] && issued == 0
    {
      this.native := native;
      entries := map[];
      issued := 0;
    }

    function EntryOf(field: nat): FieldEntry<D, R, S>
      reads `entries
    {
      EntryIn(entries, field)
    }

    ghost predicate Valid()
      reads `entries
    {
      forall field :: field in entries ==> EntryValid(native, entries[field])
    }

    /**
      `Field.defaultJSValue`: through the cached schema while the Field equals its
      snapshot. It gives what a fresh computation on the Field as it is now would give.
     */
    method DefaultJsValue(field: nat, state: FieldState<D, R>) returns (value: Option<V>)
      requires Sound(native) && Valid()
      modifies `entries
      ensures Valid()
      ensures value == FreshValue(native, state) == CachedValue(native, EntryIn(old(entries), field), state)
      ensures entries == old(entries)[field := ValueStep(native, EntryIn(old(entries), field), state)]
    {
      var entry := EntryOf(field);
      if entry.snapshot.None? || !native.fieldEquals(state, entry.snapshot.value) {
        var schema := native.schema(state);
        if schema.None? {
          entries := entries[field := entry];
          return None;
        }
        entry := entry.(schema := schema).(snapshot := Some(state));
      }
      entries := entries[field := entry];
      value := native.project(state, entry.schema.value);
    }

    /**
      `Field.defaultJSHint`: the cached object while the datatype and nullability are the
      ones it was made for, and otherwise a new object. It says what a fresh computation
      says, as long as the entry names what its hint is of.
     */
    method DefaultJsHint(field: nat, state: FieldState<D, R>) returns (answer: Option<HintObject>)
      requires Valid()
      modifies `entries, `issued
      ensures Valid()
      ensures var (entry, count, handed) := HintStep(native, EntryIn(old(entries), field), old(issued), state);
        entries == old(entries)[field := entry] && issued == count && answer == handed
      // The very object of the last ask, or one that was never handed out before.
      ensures HintHit(native, EntryIn(old(entries), field), state) ==>
          answer == EntryIn(old(entries), field).hint && issued == old(issued)
      ensures !HintHit(native, EntryIn(old(entries), field), state) && answer.Some? ==>
                answer.value.serial == old(issued) && issued == old(issued) + 1
      // Where no hint throws: the Field's own kind and nullability, and the constructor at its native code.
      ensures Sound(native) && Uniform(native) && HintValid(native, EntryIn(old(entries), field)) && answer.Some? ==>
                && answer.value.hint.kind == native.kind(state.dataType) && answer.value.hint.nullable == state.nullable
                && native.hint(state.dataType).Some?
                && Some(answer.value.hint.made) == ConstructorAt(native.hint(state.dataType).value)
      ensures Sound(native) && Uniform(native) && HintValid(native, EntryIn(old(entries), field)) ==>
                && Says(answer) == FreshHint(native, state.dataType, state.nullable)
                && HintValid(native, EntryIn(entries, field))
    {
      ghost var before := EntryOf(field);
      if Sound(native) && Uniform(native) && HintValid(native, before) {
        HintStepFresh(native, before, issued, state);
      }
      var entry := EntryOf(field);
      if !HintHit(native, entry, state) {
        entry := entry.(hintDataType := Some(state.dataType)).(hintNullable := Some(state.nullable));
        entries := entries[field := entry];
        var made := FreshHint(native, state.dataType, state.nullable);
        if made.None? { return None; }
        entry := entry.(hint := Some(HintObject(issued, made.value)));
        issued := issued + 1;
      }
      entries := entries[field := entry];
      answer := entry.hint;
    }
  }

  function EntryIn<D, R, S>(entries: map<nat, FieldEntry<D, R, S>>, field: nat): FieldEntry<D, R, S> {
    if field in entries then entries[field] else NewEntry()
  }

  // ----- Whole runs -----

  /** What a program does with its Fields. */
  datatype Op<D, R> = Mutate(field: nat, state: FieldState<D, R>) | AskHint(field: nat) | AskValue(field: nat)

  datatype Answer<H, V> = Quiet | HintIs(hint: Option<H>) | ValueIs(value: Option<V>)

  datatype State<D, R, S> = State(entries: map<nat, FieldEntry<D, R, S>>, issued: nat, fields: nat -> FieldState<D, R>)

  function With<D, R>(fields: nat -> FieldState<D, R>, field: nat, state: FieldState<D, R>): nat -> FieldState<D, R> {
    (f: nat) => if f == field then state else fields(f)
  }

  function Step<D, R, S, V>(native: Native<D, R, S, V>, s: State<D, R, S>, op: Op<D, R>)
    : (State<D, R, S>, Answer<HintObject, V>)
  {
    match op
    case Mutate(field, state) => (s.(fields := With(s.fields, field, state)), Quiet)
    case AskHint(field) =>
      var (entry, issued, answer) := HintStep(native, EntryIn(s.entries, field), s.issued, s.fields(field));
      (s.(entries := s.entries[field := entry]).(issued := issued), HintIs(answer))
    case AskValue(field) =>
      var entry := EntryIn(s.entries, field);
      (s.(entries := s.entries[field := ValueStep(native, entry, s.fields(field))]),
       ValueIs(CachedValue(native, entry, s.fields(field))))
  }

  function Run<D, R, S, V>(native: Native<D, R, S, V>, s: State<D, R, S>, ops: seq<Op<D, R>>)
    : seq<Answer<HintObject, V>>
    decreases |ops|
  {
    if ops == [] then [] else [Step(native, s, ops[0]).1] + Run(native, Step(native, s, ops[0]).0, ops[1..])
  }

  /** An answer, whichever object it is. */
  function Content<V>(answer: Answer<HintObject, V>): Answer<Hint, V> {
    match answer
    case Quiet => Quiet
    case HintIs(hint) => HintIs(Says(hint))
    case ValueIs(value) => ValueIs(value)
  }

  function FreshAnswer<D, R, S, V>(native: Native<D, R, S, V>, fields: nat -> FieldState<D, R>,
                                  op: Op<D, R>): Answer<Hint, V> {
    match op
    case Mutate(_, _) => Quiet
    case AskHint(field) => HintIs(FreshHint(native, fields(field).dataType, fields(field).nullable))
    case AskValue(field) => ValueIs(FreshValue(native, fields(field)))
  }

  function FieldsAfter<D, R>(fields: nat -> FieldState<D, R>, op: Op<D, R>): nat -> FieldState<D, R> {
    if op.Mutate? then With(fields, op.field, op.state) else fields
  }

  /** The same calls with nothing cached. */
  function FreshRun<D, R, S, V>(native: Native<D, R, S, V>, fields: nat -> FieldState<D, R>, ops: seq<Op<D, R>>)
    : seq<Answer<Hint, V>>
    decreases |ops|
  {
    if ops == [] then []
    else [FreshAnswer(native, fields, ops[0])] + FreshRun(native, FieldsAfter(fields, ops[0]), ops[1..])
  }

  ghost predicate StateValid<D, R, S, V>(native: Native<D, R, S, V>, s: State<D, R, S>) {
    forall field :: HintValid(native, EntryIn(s.entries, field)) && EntryValid(native, EntryIn(s.entries, field))
  }

  lemma HintStepFresh<D(!new), R(!new), S, V>(
    native: Native<D, R, S, V>, entry: FieldEntry<D, R, S>, issued: nat, state: FieldState<D, R>)
    requires Sound(native) && Uniform(native) && HintValid(native, entry)
    ensures HintValid(native, HintStep(native, entry, issued, state).0)
    ensures Says(HintStep(native, entry, issued, state).2) == FreshHint(native, state.dataType, state.nullable)
  {
    if HintHit(native, entry, state) {
      assert native.hint(state.dataType) == native.hint(entry.hintDataType.value);
    }
  }

  lemma ValueStepFresh<D(!new), R(!new), S, V>(native: Native<D, R, S, V>, entry: FieldEntry<D, R, S>,
                                              state: FieldState<D, R>)
    requires Sound(native) && EntryValid(native, entry)
    ensures EntryValid(native, ValueStep(native, entry, state))
    ensures CachedValue(native, entry, state) == FreshValue(native, state)
  {
  }

  lemma StepFresh<D(!new), R(!new), S(!new), V(!new)>(native: Native<D, R, S, V>, s: State<D, R, S>, op: Op<D, R>)
    requires Sound(native) && Uniform(native) && StateValid(native, s)
    ensures StateValid(native, Step(native, s, op).0) && Step(native, s, op).0.fields == FieldsAfter(s.fields, op)
    ensures Content(Step(native, s, op).1) == FreshAnswer(native, s.fields, op)
  {
    hide Sound, Uniform, FreshHint, FreshValue, With, CachedValue;
    var next := Step(native, s, op).0;
    if !op.Mutate? {
      var entry := EntryIn(s.entries, op.field);
      assert HintValid(native, entry) && EntryValid(native, entry);
      HintStepFresh(native, entry, s.issued, s.fields(op.field));
      ValueStepFresh(native, entry, s.fields(op.field));
      StepsKeep(native, entry, s.issued, s.fields(op.field));
    }
    hide HintStep, ValueStep, HintValid, EntryValid;
    forall field
      ensures HintValid(native, EntryIn(next.entries, field)) && EntryValid(native, EntryIn(next.entries, field))
    {
      assert HintValid(native, EntryIn(s.entries, field)) && EntryValid(native, EntryIn(s.entries, field));
    }
  }

  /** The hint and the schema of an entry do not meet. */
  lemma StepsKeep<D, R, S, V>(native: Native<D, R, S, V>, entry: FieldEntry<D, R, S>, issued: nat,
                              state: FieldState<D, R>)
    ensures EntryValid(native, entry) ==> EntryValid(native, HintStep(native, entry, issued, state).0)
    ensures HintValid(native, entry) ==> HintValid(native, ValueStep(native, entry, state))
  {
  }

  /** When every datatype has a hint, no run can tell the caches from computing all afresh. */
  lemma {:induction false} UniformRunsFresh<D(!new), R(!new), S(!new), V(!new)>(
    native: Native<D, R, S, V>, s: State<D, R, S>, ops: seq<Op<D, R>>)
    requires Sound(native) && Uniform(native) && StateValid(native, s)
    ensures |Run(native, s, ops)| == |ops| == |FreshRun(native, s.fields, ops)|
    ensures forall i :: 0 <= i < |ops| ==> Content(Run(native, s, ops)[i]) == FreshRun(native, s.fields, ops)[i]
    decreases |ops|
  {
    if ops != [] {
      hide Sound, Uniform, Step, StateValid, FreshAnswer, Content, FieldsAfter;
      StepFresh(native, s, ops[0]);
      UniformRunsFresh(native, Step(native, s, ops[0]).0, ops[1..]);
    }
  }

  function Start<D, R, S>(fields: nat -> FieldState<D, R>): State<D, R, S> {
    State(map[], 0, fields)
  }

  lemma StartValid<D(!new), R(!new), S(!new), V(!new)>(native: Native<D, R, S, V>, fields: nat -> FieldState<D, R>)
    ensures StateValid(native, Start(fields))
  {
  }

  /** All that is handed out in a run is what computing it afresh would give. */
  ghost predicate Transparent<D(!new), R(!new), S(!new), V(!new)>(
    native: Native<D, R, S, V>, fields: nat -> FieldState<D, R>, ops: seq<Op<D, R>>)
  {
    && |Run(native, Start(fields), ops)| == |FreshRun(native, fields, ops)|
    && forall i :: 0 <= i < |FreshRun(native, fields, ops)| ==>
         Content(Run(native, Start(fields), ops)[i]) == FreshRun(native, fields, ops)[i]
  }

  // ----- What the total hint is needed for -----

  /** Moving from a datatype with a hint to one without, and asking twice. */
  function PartialRun<D, R>(a: FieldState<D, R>, b: FieldState<D, R>): seq<Op<D, R>> {
    [Mutate(0, a), AskHint(0), Mutate(0, b), AskHint(0), AskHint(0)]
  }

  lemma RunFive<D, R, S, V>(native: Native<D, R, S, V>, s: State<D, R, S>, ops: seq<Op<D, R>>)
    requires |ops| == 5
    ensures var s1 := Step(native, s, ops[0]).0;
      var s2 := Step(native, s1, ops[1]).0;
      var s3 := Step(native, s2, ops[2]).0;
      var s4 := Step(native, s3, ops[3]).0;
      |Run(native, s, ops)| == 5 && Run(native, s, ops)[4] == Step(native, s4, ops[4]).1
  {
    hide Step;
    assert ops[1..][1..] == ops[2..] && ops[2..][1..] == ops[3..] && ops[3..][1..] == ops[4..] && ops[4..][1..] == [];
    var s1 := Step(native, s, ops[0]).0;
    var s2 := Step(native, s1, ops[1]).0;
    var s3 := Step(native, s2, ops[2]).0;
    var s4 := Step(native, s3, ops[3]).0;
    assert Run(native, s4, ops[4..]) == [Step(native, s4, ops[4]).1];
    assert |Run(native, s3, ops[3..])| == 2;
    assert |Run(native, s2, ops[2..])| == 3;
    assert |Run(native, s1, ops[1..])| == 4;
  }

  lemma FreshFive<D, R, S, V>(
    native: Native<D, R, S, V>, fields: nat -> FieldState<D, R>, a: FieldState<D, R>, b: FieldState<D, R>)
    ensures var ops := PartialRun(a, b);
      |FreshRun(native, fields, ops)| == 5
      && FreshRun(native, fields, ops)[4] == HintIs(FreshHint(native, b.dataType, b.nullable))
  {
    hide FreshHint, With;
    var ops := PartialRun(a, b);
    assert ops[1..][1..] == ops[2..] && ops[2..][1..] == ops[3..] && ops[3..][1..] == ops[4..] && ops[4..][1..] == [];
    var fields1 := With(fields, 0, a);
    var fields3 := With(fields1, 0, b);
    assert fields3(0) == b by { WithThis(fields1, 0, b); }
    assert FreshRun(native, fields3, ops[4..]) == [HintIs(FreshHint(native, b.dataType, b.nullable))];
    assert |FreshRun(native, fields3, ops[3..])| == 2;
    assert |FreshRun(native, fields1, ops[2..])| == 3;
    assert |FreshRun(native, fields1, ops[1..])| == 4;
  }

  lemma WithThis<D, R>(fields: nat -> FieldState<D, R>, field: nat, state: FieldState<D, R>)
    ensures With(fields, field, state)(field) == state
  {
  }

  /** With a native hint that throws for one datatype only, an entry would keep the old hint under the new datatype. */
  lemma PartialHint<D(!new), R(!new), S(!new), V(!new)>(
    native: Native<D, R, S, V>, fields: nat -> FieldState<D, R>, a: FieldState<D, R>, b: FieldState<D, R>)
    requires Sound(native)
    requires FreshHint(native, a.dataType, a.nullable).Some? && FreshHint(native, b.dataType, b.nullable).None?
    ensures var answers := Run(native, Start(fields), PartialRun(a, b));
      |answers| == 5 && Content(answers[4]) == HintIs(FreshHint(native, a.dataType, a.nullable))
  {
    var ops := PartialRun(a, b);
    RunFive(native, Start(fields), ops);
    hide With, Sound, Run;
    WithThis(fields, 0, a);
    WithThis(With(fields, 0, a), 0, b);
    NeverEqual(native, a, b);
  }

  lemma NeverEqual<D(!new), R(!new), S(!new), V(!new)>(native: Native<D, R, S, V>,
                                                       a: FieldState<D, R>, b: FieldState<D, R>)
    requires Sound(native)
    requires FreshHint(native, a.dataType, a.nullable).Some? && FreshHint(native, b.dataType, b.nullable).None?
    ensures !native.typeEquals(b.dataType, a.dataType) && native.typeEquals(b.dataType, b.dataType)
  {
  }

  /** For a native side in general: every run is transparent exactly when all datatypes have a hint or none has. */
  lemma TransparentIffUniform<D(!new), R(!new), S(!new), V(!new)>(native: Native<D, R, S, V>,
                                                                  fields: nat -> FieldState<D, R>)
    requires Sound(native)
    ensures (forall ops :: Transparent(native, fields, ops)) <==> Uniform(native)
  {
    hide Sound, Run, FreshRun, FreshHint;
    if Uniform(native) {
      StartValid(native, fields);
      forall ops ensures Transparent(native, fields, ops) {
        UniformRunsFresh(native, Start(fields), ops);
      }
    } else {
      var a, b, m, n :| FreshHint(native, a, m).Some? && FreshHint(native, b, n).None?;
      var from, to := FieldState(a, m, fields(0).rest), FieldState(b, n, fields(0).rest);
      PartialHint(native, fields, from, to);
      FreshFive(native, fields, from, to);
      assert !Transparent(native, fields, PartialRun(from, to));
    }
  }

  // ----- The same object -----

  /** Nothing that would make another hint object for this Field. */
  predicate Irrelevant<D, R, S, V>(native: Native<D, R, S, V>, entry: FieldEntry<D, R, S>, field: nat, op: Op<D, R>) {
    op.Mutate? && op.field == field ==> HintHit(native, entry, op.state)
  }

  /** Asking for the default of a Field does not touch its hint. */
  lemma ValueKeepsHint<D, R, S, V>(
    native: Native<D, R, S, V>, entry: FieldEntry<D, R, S>, valued: FieldState<D, R>, state: FieldState<D, R>)
    ensures HintHit(native, ValueStep(native, entry, valued), state) == HintHit(native, entry, state)
    ensures ValueStep(native, entry, valued).hint == entry.hint
  {
  }

  /**
    As long as a Field keeps its datatype and nullability, every ask gives the same object,
    whatever else about it or about other Fields changes.
   */
  lemma {:induction false} SameObject<D, R, S, V>(native: Native<D, R, S, V>, s: State<D, R, S>, field: nat,
                                                ops: seq<Op<D, R>>)
    requires HintHit(native, EntryIn(s.entries, field), s.fields(field))
    requires forall i :: 0 <= i < |ops| ==> Irrelevant(native, EntryIn(s.entries, field), field, ops[i])
    ensures |Run(native, s, ops)| == |ops|
    ensures forall i :: 0 <= i < |ops| && ops[i] == AskHint(field) ==>
      Run(native, s, ops)[i] == HintIs(EntryIn(s.entries, field).hint)
    decreases |ops|
  {
    if ops != [] {
      hide HintHit, ValueStep, CachedValue;
      var entry, next := EntryIn(s.entries, field), Step(native, s, ops[0]).0;
      assert Irrelevant(native, entry, field, ops[0]);
      ValueKeepsHint(native, entry, s.fields(field), s.fields(field));
      assert EntryIn(next.entries, field).hint == entry.hint;
      assert HintHit(native, EntryIn(next.entries, field), next.fields(field));
      forall i | 0 <= i < |ops[1..]| ensures Irrelevant(native, EntryIn(next.entries, field), field, ops[1..][i]) {
        assert Irrelevant(native, entry, field, ops[i + 1]);
        if ops[i + 1].Mutate? { ValueKeepsHint(native, entry, s.fields(field), ops[i + 1].state); }
      }
      SameObject(native, next, field, ops[1..]);
    }
  }

  // ----- Whose object it is -----

  /** Every Field's object was handed out before, and none is another Field's. */
  ghost predicate Separate<D, R, S>(s: State<D, R, S>) {
    && (forall f: nat :: EntryIn(s.entries, f).hint.Some? ==> EntryIn(s.entries, f).hint.value.serial < s.issued)
    && (forall f: nat, g: nat :: f != g && EntryIn(s.entries, f).hint.Some? && EntryIn(s.entries, g).hint.Some? ==>
          EntryIn(s.entries, f).hint.value.serial != EntryIn(s.entries, g).hint.value.serial)
  }

  /** A step leaves a Field's object as it was, or gives the Field asked about a new one. */
  lemma StepObject<D, R, S, V>(native: Native<D, R, S, V>, s: State<D, R, S>, op: Op<D, R>, f: nat)
    ensures var (next, answer) := Step(native, s, op);
      && s.issued <= next.issued
      && (|| EntryIn(next.entries, f).hint == EntryIn(s.entries, f).hint
          || (&& op == AskHint(f) && next.issued == s.issued + 1 && EntryIn(next.entries, f).hint.Some?
              && EntryIn(next.entries, f).hint.value.serial == s.issued))
      && (op.AskHint? ==> answer.HintIs?)
      && (op == AskHint(f) && answer.hint.Some? ==> answer.hint == EntryIn(next.entries, f).hint)
  {
    hide HintHit, FreshHint, CachedValue;
  }

  lemma StepSeparate<D, R, S, V>(native: Native<D, R, S, V>, s: State<D, R, S>, op: Op<D, R>)
    requires Separate(s)
    ensures Separate(Step(native, s, op).0) && s.issued <= Step(native, s, op).0.issued
    ensures var (next, answer) := Step(native, s, op);
      op.AskHint? ==> answer.HintIs? && (answer.hint.Some? ==> answer.hint == EntryIn(next.entries, op.field).hint)
    ensures var (next, answer) := Step(native, s, op);
      forall f: nat :: EntryIn(next.entries, f).hint.Some? ==>
        || EntryIn(next.entries, f).hint == EntryIn(s.entries, f).hint
        || EntryIn(next.entries, f).hint.value.serial >= s.issued
  {
    hide Step, EntryIn;
    var next := Step(native, s, op).0;
    StepObject(native, s, op, 0);
    if op.AskHint? { StepObject(native, s, op, op.field); }
    forall f: nat | EntryIn(next.entries, f).hint.Some?
      ensures EntryIn(next.entries, f).hint.value.serial < next.issued
      ensures EntryIn(next.entries, f).hint == EntryIn(s.entries, f).hint
              || EntryIn(next.entries, f).hint.value.serial >= s.issued
    {
      StepObject(native, s, op, f);
    }
    forall f: nat, g: nat | f != g && EntryIn(next.entries, f).hint.Some? && EntryIn(next.entries, g).hint.Some?
      ensures EntryIn(next.entries, f).hint.value.serial != EntryIn(next.entries, g).hint.value.serial
    {
      StepObject(native, s, op, f);
      StepObject(native, s, op, g);
    }
  }

  /** What a Field is given in a run is the object it had, or one made since. */
  lemma {:induction false} OwnOrNew<D, R, S, V>(
    native: Native<D, R, S, V>, s: State<D, R, S>, ops: seq<Op<D, R>>, i: nat)
    requires Separate(s) && i < |ops| && ops[i].AskHint?
    ensures |Run(native, s, ops)| == |ops| && Run(native, s, ops)[i].HintIs?
    ensures var answer, own := Run(native, s, ops)[i].hint, EntryIn(s.entries, ops[i].field).hint;
      answer.Some? ==> answer.value.serial >= s.issued || (own.Some? && answer.value.serial == own.value.serial)
    decreases |ops|
  {
    var next := Step(native, s, ops[0]).0;
    StepSeparate(native, s, ops[0]);
    RunLength(native, next, ops[1..]);
    if 0 < i {
      hide Separate, Step;
      OwnOrNew(native, next, ops[1..], i - 1);
    }
  }

  lemma {:induction false} RunLength<D, R, S, V>(native: Native<D, R, S, V>, s: State<D, R, S>, ops: seq<Op<D, R>>)
    ensures |Run(native, s, ops)| == |ops|
    decreases |ops|
  {
    hide Step;
    if ops != [] { RunLength(native, Step(native, s, ops[0]).0, ops[1..]); }
  }

  /** No two Fields are ever given one object, over every interleaving of mutations and asks. */
  lemma {:induction false} NeverShared<D, R, S, V>(
    native: Native<D, R, S, V>, s: State<D, R, S>, ops: seq<Op<D, R>>, i: nat, j: nat)
    requires Separate(s) && i < j < |ops| && ops[i].AskHint? && ops[j].AskHint? && ops[i].field != ops[j].field
    ensures var answers := Run(native, s, ops);
      && |answers| == |ops| && answers[i].HintIs? && answers[j].HintIs?
      && (answers[i].hint.Some? && answers[j].hint.Some? ==>
            answers[i].hint.value.serial != answers[j].hint.value.serial)
    decreases |ops|
  {
    var next := Step(native, s, ops[0]).0;
    StepSeparate(native, s, ops[0]);
    RunLength(native, next, ops[1..]);
    if 0 < i {
      hide Separate, Step;
      NeverShared(native, next, ops[1..], i - 1, j - 1);
    } else {
      OwnOrNew(native, next, ops[1..], j - 1);
      hide Step;
    }
  }

  lemma StartSeparate<D, R, S>(fields: nat -> FieldState<D, R>)
    ensures Separate(Start<D, R, S>(fields))
  {
  }
}
