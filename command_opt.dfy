/**
 * The flag record `flags` of opt.go. Go gives each of the twelve option types a
 * `Configure(flags *flags)` method that writes one field through the pointer; here each
 * is a method `Configure<option type>` of the class, whose contract is `Apply` of the
 * `Options` module: that one field changes and the other eleven keep their values.
 */
module CommandOpt {
  import opened Options

  class Flags {
    var reverse: bool
    var numeric: bool
    var unique: bool
    var ignoreCase: bool
    var field: int
    var delimiter: string
    var random: bool
    var ignoreLeadingBlanks: bool
    var versionSort: bool
    var humanNumeric: bool
    var monthSort: bool
    var stableSort: bool

    /** The record's current contents as a value. */
    function Value(): Config
      reads this
    {
      Config(reverse, numeric, unique, ignoreCase, field, delimiter, random,
             ignoreLeadingBlanks, versionSort, humanNumeric, monthSort, stableSort)
    }

    /** A zero-valued record, as the framework allocates it before configuring. */
    constructor ()
      ensures Value() == Zero
    {
      reverse, numeric, unique, ignoreCase := false, false, false, false;
      field, delimiter := 0, "";
      random, ignoreLeadingBlanks := false, false;
      versionSort, humanNumeric, monthSort, stableSort := false, false, false, false;
    }

    method ConfigureReverse(r: bool)
      modifies this
      ensures Value() == old(Value()).(reverse := r)
      ensures Value() == Apply(old(Value()), ReverseFlag(r))
    {
      reverse := r;
    }

    method ConfigureNumeric(n: bool)
      modifies this
      ensures Value() == old(Value()).(numeric := n)
      ensures Value() == Apply(old(Value()), NumericFlag(n))
    {
      numeric := n;
    }

    method ConfigureUnique(u: bool)
      modifies this
      ensures Value() == old(Value()).(unique := u)
      ensures Value() == Apply(old(Value()), UniqueFlag(u))
    {
      unique := u;
    }

    method ConfigureIgnoreCase(i: bool)
      modifies this
      ensures Value() == old(Value()).(ignoreCase := i)
      ensures Value() == Apply(old(Value()), IgnoreCaseFlag(i))
    {
      ignoreCase := i;
    }

    method ConfigureField(f: int)
      modifies this
      ensures Value() == old(Value()).(field := f)
      ensures Value() == Apply(old(Value()), Field(f))
    {
      field := f;
    }

    method ConfigureDelimiter(d: string)
      modifies this
      ensures Value() == old(Value()).(delimiter := d)
      ensures Value() == Apply(old(Value()), Delimiter(d))
    {
      delimiter := d;
    }

    method ConfigureRandom(r: bool)
      modifies this
      ensures Value() == old(Value()).(random := r)
      ensures Value() == Apply(old(Value()), RandomFlag(r))
    {
      random := r;
    }

    method ConfigureIgnoreLeadingBlanks(i: bool)
      modifies this
      ensures Value() == old(Value()).(ignoreLeadingBlanks := i)
      ensures Value() == Apply(old(Value()), IgnoreLeadingBlanksFlag(i))
    {
      ignoreLeadingBlanks := i;
    }

    method ConfigureVersionSort(v: bool)
      modifies this
      ensures Value() == old(Value()).(versionSort := v)
      ensures Value() == Apply(old(Value()), VersionSortFlag(v))
    {
      versionSort := v;
    }

    method ConfigureHumanNumeric(h: bool)
      modifies this
      ensures Value() == old(Value()).(humanNumeric := h)
      ensures Value() == Apply(old(Value()), HumanNumericFlag(h))
    {
      humanNumeric := h;
    }

    method ConfigureMonthSort(m: bool)
      modifies this
      ensures Value() == old(Value()).(monthSort := m)
      ensures Value() == Apply(old(Value()), MonthSortFlag(m))
    {
      monthSort := m;
    }

    method ConfigureStableSort(s: bool)
      modifies this
      ensures Value() == old(Value()).(stableSort := s)
      ensures Value() == Apply(old(Value()), StableSortFlag(s))
    {
      stableSort := s;
    }
  }
}
