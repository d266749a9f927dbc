/**
  The caches of node/defaults.js over the hints of node/src/record.rs: the native hint is
  total on the datatypes that can be built, so nothing cached can go stale.
 */
module HintCaches {
  import opened Sequences
  import V = Values
  import R = RecordHints
  import opened DefaultsCache

  /** A datatype whose intervals have calendar layouts: no constructor within reach builds another. */
  type ValidType = t: R.DataType | R.ValidIntervals(t) witness R.Scalar(R.Null)

  /** The native hint of a datatype, as the code it crosses as. */
  function NativeHint(dataType: ValidType): Option<nat> {
    var category := R.Hint(dataType);
    if category.None? then None else Some(R.Code(category.value))
  }

  ghost predicate GivesRecordHints<Rest(!new), S, W>(native: Native<ValidType, Rest, S, W>) {
    forall dataType :: native.hint(dataType) == NativeHint(dataType)
  }

  /** The category a constructor stands for. */
  function CategoryOf(made: Constructor): R.Category {
    match made
    case NoConstructor => R.NullValue
    case BooleanConstructor => R.BooleanValue
    case NumberConstructor => R.NumberValue
    case BigIntConstructor => R.BigIntValue
    case ArrayConstructor => R.ArrayValue
    case BufferConstructor => R.BufferValue
    case StringConstructor => R.StringValue
    case ObjectConstructor => R.ObjectValue
    case MapConstructor => R.MapValue
  }

  /** Every code is the place of its own category's constructor in the table. */
  lemma CodeIsInTable(category: R.Category)
    ensures ConstructorAt(R.Code(category)).Some?
    ensures CategoryOf(ConstructorAt(R.Code(category)).value) == category
  {
  }

  /** A hint never throws, and names the constructor of the datatype's category. */
  lemma HintsNeverThrow<Rest(!new), S, W>(native: Native<ValidType, Rest, S, W>, dataType: ValidType, nullable: bool)
    requires GivesRecordHints(native)
    ensures FreshHint(native, dataType, nullable).Some?
    ensures Some(CategoryOf(FreshHint(native, dataType, nullable).value.made)) == R.Hint(dataType)
    ensures FreshHint(native, dataType, nullable).value.kind == native.kind(dataType)
    ensures FreshHint(native, dataType, nullable).value.nullable == nullable
  {
    hide R.Hint, R.Code, ConstructorAt, CategoryOf;
    R.HintTotal(dataType);
    CodeIsInTable(R.Hint(dataType).value);
    assert native.hint(dataType) == NativeHint(dataType);
  }

  /** Over every interleaving of mutations and asks, what the caches hand out is what computing it afresh would give. */
  lemma EveryRunTransparent<Rest(!new), S(!new), W(!new)>(
    native: Native<ValidType, Rest, S, W>, fields: nat -> FieldState<ValidType, Rest>, ops: seq<Op<ValidType, Rest>>)
    requires Sound(native) && GivesRecordHints(native)
    ensures Transparent(native, fields, ops)
  {
    hide Sound, Run, FreshRun, FreshHint, GivesRecordHints, StateValid, Content;
    forall a, b, m, n | FreshHint(native, a, m).Some? ensures FreshHint(native, b, n).Some? {
      HintsNeverThrow(native, b, n);
    }
    assert Uniform(native);
    StartValid(native, fields);
    UniformRunsFresh(native, Start(fields), ops);
  }

  /** Whatever value a Field projects, the hint handed out for it names the constructor of what comes out. */
  lemma HintMatchesProjection<Rest(!new), S, W>(
    native: Native<ValidType, Rest, S, W>, dataType: ValidType, nullable: bool, read: R.BigIntReader, value: V.Value)
    requires GivesRecordHints(native) && !value.Null? && R.Project(read, dataType, value).Some?
    ensures FreshHint(native, dataType, nullable).Some?
    ensures R.CategoryOf(R.Project(read, dataType, value).value)
         == Some(CategoryOf(FreshHint(native, dataType, nullable).value.made))
  {
    hide R.Hint, R.Project, R.CategoryOf, FreshHint, CategoryOf, GivesRecordHints;
    HintsNeverThrow(native, dataType, nullable);
    R.HintKeepsItsWord(read, dataType, value);
  }
}
