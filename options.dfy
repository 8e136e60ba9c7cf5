/**
 * The flag record shared in shape by both engines (`Flags` in opt/opt.go, `flags` in
 * opt.go) as an immutable value, the twelve option types whose `Configure` methods fill
 * it in, and the twenty named flag constants.
 */
module Options {

  /** One value of the flag record. */
  datatype Config = Config(
    reverse: bool,
    numeric: bool,
    unique: bool,
    ignoreCase: bool,
    field: int,
    delimiter: string,
    random: bool,
    ignoreLeadingBlanks: bool,
    versionSort: bool,
    humanNumeric: bool,
    monthSort: bool,
    stableSort: bool)

  /** Go's zero value of the record: every flag false, field 0, delimiter "". */
  const Zero: Config := Config(false, false, false, false, 0, "", false, false, false, false, false, false)

  /** One constructor per option type that has a `Configure` method. */
  datatype Option =
    | ReverseFlag(on: bool)
    | NumericFlag(on: bool)
    | UniqueFlag(on: bool)
    | IgnoreCaseFlag(on: bool)
    | Field(n: int)
    | Delimiter(d: string)
    | RandomFlag(on: bool)
    | IgnoreLeadingBlanksFlag(on: bool)
    | VersionSortFlag(on: bool)
    | HumanNumericFlag(on: bool)
    | MonthSortFlag(on: bool)
    | StableSortFlag(on: bool)

  const Reverse: Option := ReverseFlag(true)
  const NoReverse: Option := ReverseFlag(false)
  const Numeric: Option := NumericFlag(true)
  const NoNumeric: Option := NumericFlag(false)
  const Unique: Option := UniqueFlag(true)
  const NoUnique: Option := UniqueFlag(false)
  const IgnoreCase: Option := IgnoreCaseFlag(true)
  const CaseSensitive: Option := IgnoreCaseFlag(false)
  const Random: Option := RandomFlag(true)
  const NoRandom: Option := RandomFlag(false)
  const IgnoreLeadingBlanks: Option := IgnoreLeadingBlanksFlag(true)
  const NoIgnoreLeadingBlanks: Option := IgnoreLeadingBlanksFlag(false)
  const VersionSort: Option := VersionSortFlag(true)
  const NoVersionSort: Option := VersionSortFlag(false)
  const HumanNumeric: Option := HumanNumericFlag(true)
  const NoHumanNumeric: Option := HumanNumericFlag(false)
  const MonthSort: Option := MonthSortFlag(true)
  const NoMonthSort: Option := MonthSortFlag(false)
  const StableSort: Option := StableSortFlag(true)
  const NoStableSort: Option := StableSortFlag(false)

  /** The twelve fields of the record, by name. */
  datatype Slot =
    | ReverseSlot | NumericSlot | UniqueSlot | IgnoreCaseSlot | FieldSlot | DelimiterSlot
    | RandomSlot | IgnoreLeadingBlanksSlot | VersionSortSlot | HumanNumericSlot
    | MonthSortSlot | StableSortSlot

  /** What a field holds. */
  datatype Value = Bool(b: bool) | Int(i: int) | Str(s: string)

  function Get(c: Config, s: Slot): Value
  {
    match s
    case ReverseSlot => Bool(c.reverse)
    case NumericSlot => Bool(c.numeric)
    case UniqueSlot => Bool(c.unique)
    case IgnoreCaseSlot => Bool(c.ignoreCase)
    case FieldSlot => Int(c.field)
    case DelimiterSlot => Str(c.delimiter)
    case RandomSlot => Bool(c.random)
    case IgnoreLeadingBlanksSlot => Bool(c.ignoreLeadingBlanks)
    case VersionSortSlot => Bool(c.versionSort)
    case HumanNumericSlot => Bool(c.humanNumeric)
    case MonthSortSlot => Bool(c.monthSort)
    case StableSortSlot => Bool(c.stableSort)
  }

  /** The field an option's `Configure` writes. */
  function SlotOf(o: Option): Slot
  {
    match o
    case ReverseFlag(_) => ReverseSlot
    case NumericFlag(_) => NumericSlot
    case UniqueFlag(_) => UniqueSlot
    case IgnoreCaseFlag(_) => IgnoreCaseSlot
    case Field(_) => FieldSlot
    case Delimiter(_) => DelimiterSlot
    case RandomFlag(_) => RandomSlot
    case IgnoreLeadingBlanksFlag(_) => IgnoreLeadingBlanksSlot
    case VersionSortFlag(_) => VersionSortSlot
    case HumanNumericFlag(_) => HumanNumericSlot
    case MonthSortFlag(_) => MonthSortSlot
    case StableSortFlag(_) => StableSortSlot
  }

  /** The value an option's `Configure` stores, unchanged (no range check, no defaulting). */
  function ValueOf(o: Option): Value
  {
    match o
    case Field(n) => Int(n)
    case Delimiter(d) => Str(d)
    case _ => Bool(o.on)
  }

  /** Two records that agree on every field are the same record. */
  lemma {:induction false} SameFields(a: Config, b: Config)
    requires forall s :: Get(a, s) == Get(b, s)
    ensures a == b
  {
    assert Get(a, ReverseSlot) == Get(b, ReverseSlot);
    assert Get(a, NumericSlot) == Get(b, NumericSlot);
    assert Get(a, UniqueSlot) == Get(b, UniqueSlot);
    assert Get(a, IgnoreCaseSlot) == Get(b, IgnoreCaseSlot);
    assert Get(a, FieldSlot) == Get(b, FieldSlot);
    assert Get(a, DelimiterSlot) == Get(b, DelimiterSlot);
    assert Get(a, RandomSlot) == Get(b, RandomSlot);
    assert Get(a, IgnoreLeadingBlanksSlot) == Get(b, IgnoreLeadingBlanksSlot);
    assert Get(a, VersionSortSlot) == Get(b, VersionSortSlot);
    assert Get(a, HumanNumericSlot) == Get(b, HumanNumericSlot);
    assert Get(a, MonthSortSlot) == Get(b, MonthSortSlot);
    assert Get(a, StableSortSlot) == Get(b, StableSortSlot);
  }

  /** The record after `o.Configure(&flags)`: the option's own field holds the option's
      value and the other eleven fields are unchanged. */
  function Apply(c: Config, o: Option): (r: Config)
    ensures Get(r, SlotOf(o)) == ValueOf(o)
  {
    match o
    case ReverseFlag(b) => c.(reverse := b)
    case NumericFlag(b) => c.(numeric := b)
    case UniqueFlag(b) => c.(unique := b)
    case IgnoreCaseFlag(b) => c.(ignoreCase := b)
    case Field(n) => c.(field := n)
    case Delimiter(d) => c.(delimiter := d)
    case RandomFlag(b) => c.(random := b)
    case IgnoreLeadingBlanksFlag(b) => c.(ignoreLeadingBlanks := b)
    case VersionSortFlag(b) => c.(versionSort := b)
    case HumanNumericFlag(b) => c.(humanNumeric := b)
    case MonthSortFlag(b) => c.(monthSort := b)
    case StableSortFlag(b) => c.(stableSort := b)
  }

  /** `Configure` leaves every other field of the record as it was. */
  lemma {:induction false} ApplyKeepsOtherFields(c: Config, o: Option, s: Slot)
    requires s != SlotOf(o)
    ensures Get(Apply(c, o), s) == Get(c, s)
  {
    match s
    case ReverseSlot =>
    case NumericSlot =>
    case UniqueSlot =>
    case IgnoreCaseSlot =>
    case FieldSlot =>
    case DelimiterSlot =>
    case RandomSlot =>
    case IgnoreLeadingBlanksSlot =>
    case VersionSortSlot =>
    case HumanNumericSlot =>
    case MonthSortSlot =>
    case StableSortSlot =>
  }

  /** The options applied in order, as the command constructors receive them. */
  function ApplyAll(c: Config, opts: seq<Option>): Config
    decreases |opts|
  {
    if opts == [] then c else ApplyAll(Apply(c, opts[0]), opts[1..])
  }

  /** Configuring the same option twice is configuring it once. */
  lemma ApplyIdempotent(c: Config, o: Option)
    ensures Apply(Apply(c, o), o) == Apply(c, o)
  {
    LaterOptionWins(c, o, o);
  }

  /** Of two options for the same field, the later one wins. */
  lemma LaterOptionWins(c: Config, o1: Option, o2: Option)
    requires SlotOf(o1) == SlotOf(o2)
    ensures Apply(Apply(c, o1), o2) == Apply(c, o2)
  {
    forall s ensures Get(Apply(Apply(c, o1), o2), s) == Get(Apply(c, o2), s) {
      if s != SlotOf(o2) {
        ApplyKeepsOtherFields(Apply(c, o1), o2, s);
        ApplyKeepsOtherFields(c, o1, s);
        ApplyKeepsOtherFields(c, o2, s);
      }
    }
    SameFields(Apply(Apply(c, o1), o2), Apply(c, o2));
  }

  /** Each named constant is an option for the field its name says, holding true, or false
      for the "No" constants and `CaseSensitive`. With `Apply`'s contract this is what
      configuring with the constant does to the record. */
  lemma ConstantsMeanTheirNames()
    ensures SlotOf(Reverse) == SlotOf(NoReverse) == ReverseSlot
    ensures SlotOf(Numeric) == SlotOf(NoNumeric) == NumericSlot
    ensures SlotOf(Unique) == SlotOf(NoUnique) == UniqueSlot
    ensures SlotOf(IgnoreCase) == SlotOf(CaseSensitive) == IgnoreCaseSlot
    ensures SlotOf(Random) == SlotOf(NoRandom) == RandomSlot
    ensures SlotOf(IgnoreLeadingBlanks) == SlotOf(NoIgnoreLeadingBlanks) == IgnoreLeadingBlanksSlot
    ensures SlotOf(VersionSort) == SlotOf(NoVersionSort) == VersionSortSlot
    ensures SlotOf(HumanNumeric) == SlotOf(NoHumanNumeric) == HumanNumericSlot
    ensures SlotOf(MonthSort) == SlotOf(NoMonthSort) == MonthSortSlot
    ensures SlotOf(StableSort) == SlotOf(NoStableSort) == StableSortSlot
    ensures forall o | o in {Reverse, Numeric, Unique, IgnoreCase, Random, IgnoreLeadingBlanks,
                             VersionSort, HumanNumeric, MonthSort, StableSort} :: ValueOf(o) == Bool(true)
    ensures forall o | o in {NoReverse, NoNumeric, NoUnique, CaseSensitive, NoRandom, NoIgnoreLeadingBlanks,
                             NoVersionSort, NoHumanNumeric, NoMonthSort, NoStableSort} :: ValueOf(o) == Bool(false)
  {
  }

  /** `Field` and `Delimiter` store their argument as given: zero, negative and "" included. */
  lemma StoredVerbatim(c: Config, n: int, d: string)
    ensures Apply(c, Field(n)).field == n
    ensures Apply(c, Delimiter(d)).delimiter == d
  {
  }

  /** The last option decides its own field, whatever came before. */
  lemma {:induction false} LastOptionDecides(c: Config, opts: seq<Option>, o: Option)
    ensures Get(ApplyAll(c, opts + [o]), SlotOf(o)) == ValueOf(o)
    decreases |opts|
  {
    if opts == [] {
      assert ApplyAll(Apply(c, o), []) == Apply(c, o);
    } else {
      assert (opts + [o])[1..] == opts[1..] + [o];
      LastOptionDecides(Apply(c, opts[0]), opts[1..], o);
    }
  }

  /** Applying two runs of options is applying their concatenation. */
  lemma {:induction false} ApplyAllConcat(c: Config, a: seq<Option>, b: seq<Option>)
    ensures ApplyAll(c, a + b) == ApplyAll(ApplyAll(c, a), b)
    decreases |a|
  {
    if a != [] {
      assert (a + b)[1..] == a[1..] + b;
      ApplyAllConcat(Apply(c, a[0]), a[1..], b);
    } else {
      assert a + b == b;
    }
  }

  /** A field that no option names keeps its value. */
  lemma {:induction false} ApplyAllKeeps(c: Config, opts: seq<Option>, s: Slot)
    requires forall o :: o in opts ==> SlotOf(o) != s
    ensures Get(ApplyAll(c, opts), s) == Get(c, s)
    decreases |opts|
  {
    if opts != [] {
      ApplyKeepsOtherFields(c, opts[0], s);
      assert forall o :: o in opts[1..] ==> o in opts;
      ApplyAllKeeps(Apply(c, opts[0]), opts[1..], s);
    }
  }

  /** An option decides its field when no later option names that field: a field holds the
      value of the last option naming it. */
  lemma LastWriterWins(c: Config, a: seq<Option>, o: Option, b: seq<Option>)
    requires forall o' :: o' in b ==> SlotOf(o') != SlotOf(o)
    ensures Get(ApplyAll(c, a + [o] + b), SlotOf(o)) == ValueOf(o)
  {
    ApplyAllConcat(c, a + [o], b);
    LastOptionDecides(c, a, o);
    ApplyAllKeeps(ApplyAll(c, a + [o]), b, SlotOf(o));
  }
}
