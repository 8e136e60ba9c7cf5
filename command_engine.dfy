/**
 * The engine in command.go. Its comparator rebinds each line step by step: lower-cased
 * with `IgnoreCase`, leading spaces and tabs dropped with `IgnoreLeadingBlanks`, then,
 * for a positive `Field`, replaced by that field of the raw line under a literal split
 * (kept as it was when the line has no such field). Numeric mode compares by value only
 * when both space-trimmed keys parse and otherwise falls through to byte order. Random
 * mode shuffles and returns; otherwise the sorted copy is filtered on exact lines when
 * `Unique` is set.
 */
module CommandEngine {
  import Wrappers
  import opened Text
  import opened Numbers
  import opened Options
  import opened SliceSort
  import opened Dedup

  /** `Sort(parameters...)`: the options applied to the zero record, then an empty
      delimiter replaced by a single space. */
  function Sort(opts: seq<Option>): (c: Config)
    ensures ApplyAll(Zero, opts).delimiter == "" ==> c.delimiter == " "
    ensures ApplyAll(Zero, opts).delimiter != "" ==> c == ApplyAll(Zero, opts)
    ensures c == ApplyAll(Zero, opts).(delimiter := c.delimiter)
  {
    var f := ApplyAll(Zero, opts);
    if f.delimiter == "" then f.(delimiter := " ") else f
  }

  // ---------------------------------------------------------------------------
  // The key inside the comparator closure
  // ---------------------------------------------------------------------------

  /** The whole-line key: lower-cased with `IgnoreCase`, then left-trimmed of ' ' and '\t'
      with `IgnoreLeadingBlanks`. */
  function WholeLineKey(c: Config, line: string): (key: string)
    ensures |key| <= |line|
  {
    var folded := if c.ignoreCase then ToLower(line) else line;
    if c.ignoreLeadingBlanks then TrimLeftBlanks(folded) else folded
  }

  /** The key the closure compares: a field of the raw line when `Field > 0` and the line
      has that field, the whole-line key otherwise. */
  function Key(c: Config, line: string): string
  {
    var key := WholeLineKey(c, line);
    if c.field > 0 then
      var fields := Split(line, c.delimiter);
      if c.field - 1 < |fields| then fields[c.field - 1] else key
    else key
  }

  /** Without a field, `IgnoreCase` turns each upper-case letter into its lower-case partner
      and leaves every other character, and `IgnoreLeadingBlanks` removes a leading run of
      spaces and tabs and nothing else. */
  lemma WholeLineKeyFacts(c: Config, line: string)
    requires c.field <= 0
    ensures var key := Key(c, line);
            var folded := if c.ignoreCase then ToLower(line) else line;
            && (c.ignoreCase ==> forall i :: 0 <= i < |key| ==> !IsUpper(key[i]))
            && key == folded[|folded| - |key|..]
            && (forall i :: 0 <= i < |folded| - |key| ==> IsBlank(folded[i]))
            && (c.ignoreLeadingBlanks ==> key == [] || !IsBlank(key[0]))
            && (!c.ignoreLeadingBlanks ==> key == folded)
            && (c.ignoreCase && !c.ignoreLeadingBlanks ==>
                  && |key| == |line|
                  && (forall i :: 0 <= i < |line| && IsUpper(line[i]) ==> key[i] as int == line[i] as int + 32)
                  && (forall i :: 0 <= i < |line| && !IsUpper(line[i]) ==> key[i] == line[i]))
  {
  }

  /** A field that exists is cut from the raw line: case folding and blank trimming are
      discarded, and the delimiter (even the default " ") is split literally. */
  lemma FieldKeyFromRawLine(c: Config, line: string)
    requires 0 < c.field <= |Split(line, c.delimiter)|
    ensures Key(c, line) == Split(line, c.delimiter)[c.field - 1]
    ensures Key(c, line) == Key(c.(ignoreCase := false, ignoreLeadingBlanks := false), line)
  {
  }

  /** A line without the requested field keeps its whole-line key, as if no field had been
      asked for. */
  lemma MissingFieldKeepsLine(c: Config, line: string)
    requires c.field > |Split(line, c.delimiter)|
    ensures Key(c, line) == Key(c.(field := 0), line)
    ensures Key(c, line) == WholeLineKey(c, line)
  {
  }

  // ---------------------------------------------------------------------------
  // The comparator closure
  // ---------------------------------------------------------------------------

  /** A key that parses as a number after `strings.TrimSpace`, in numeric mode. */
  predicate IsNumberKey(c: Config, key: string) {
    c.numeric && ParseNum(TrimSpace(key)).Some?
  }

  predicate IsNumber(c: Config, line: string) {
    IsNumberKey(c, Key(c, line))
  }

  /** The closure passed to `sort.Slice`, once `lineI` and `lineJ` hold their keys. */
  function CompareKeys(c: Config, key1: string, key2: string): bool
  {
    var num1 := ParseNum(TrimSpace(key1));
    var num2 := ParseNum(TrimSpace(key2));
    if c.numeric && num1.Some? && num2.Some? then
      if c.reverse then num1.value > num2.value else num1.value < num2.value
    else
      var result := StrLess(key1, key2);
      if c.reverse then !result else result
  }

  /** The closure on two lines. */
  function Less(c: Config, line1: string, line2: string): bool
  {
    CompareKeys(c, Key(c, line1), Key(c, line2))
  }

  /** The key reads only `Field`, `Delimiter`, `IgnoreCase` and `IgnoreLeadingBlanks`. */
  lemma KeyReadsKeyFlags(c: Config, d: Config, line: string)
    requires c.field == d.field && c.delimiter == d.delimiter
    requires c.ignoreCase == d.ignoreCase && c.ignoreLeadingBlanks == d.ignoreLeadingBlanks
    ensures Key(c, line) == Key(d, line)
  {
    assert WholeLineKey(c, line) == WholeLineKey(d, line);
  }

  /** The closure reads `Reverse`, `Numeric`, `IgnoreCase`, `IgnoreLeadingBlanks`,
      `Field` and `Delimiter`: `VersionSort`, `HumanNumeric`, `MonthSort` and
      `StableSort` never change an answer. */
  lemma ClosureIgnoresOtherFlags(c: Config, d: Config, line1: string, line2: string)
    requires c.field == d.field && c.delimiter == d.delimiter
    requires c.ignoreCase == d.ignoreCase && c.ignoreLeadingBlanks == d.ignoreLeadingBlanks
    requires c.numeric == d.numeric && c.reverse == d.reverse
    ensures Less(c, line1, line2) == Less(d, line1, line2)
  {
    KeyReadsKeyFlags(c, d, line1);
    KeyReadsKeyFlags(c, d, line2);
    var k1, k2 := Key(c, line1), Key(c, line2);
    assert CompareKeys(c, k1, k2) == CompareKeys(d, k1, k2);
  }

  /** When either key is not a number, numeric mode changes nothing: the closure answers
      as it would without `Numeric`. */
  lemma NumericFallsThrough(c: Config, line1: string, line2: string)
    requires !(IsNumber(c, line1) && IsNumber(c, line2))
    ensures Less(c, line1, line2) == Less(c.(numeric := false), line1, line2)
  {
    var d := c.(numeric := false);
    KeyReadsKeyFlags(c, d, line1);
    KeyReadsKeyFlags(c, d, line2);
    var k1, k2 := Key(c, line1), Key(c, line2);
    assert CompareKeys(c, k1, k2) == CompareKeys(d, k1, k2);
  }

  /** Two numbers compare by value, and `Reverse` swaps them: it never makes a number less
      than itself. */
  lemma ReverseSwapsNumbers(c: Config, line1: string, line2: string)
    requires IsNumber(c, line1) && IsNumber(c, line2)
    ensures Less(c.(reverse := false), line1, line2) ==
              (ParseNum(TrimSpace(Key(c, line1))).value < ParseNum(TrimSpace(Key(c, line2))).value)
    ensures Less(c.(reverse := true), line1, line2) == Less(c.(reverse := false), line2, line1)
  {
    var on, off := c.(reverse := true), c.(reverse := false);
    KeyReadsKeyFlags(c, on, line1);
    KeyReadsKeyFlags(c, on, line2);
    KeyReadsKeyFlags(c, off, line1);
    KeyReadsKeyFlags(c, off, line2);
  }

  /** Otherwise `Reverse` negates the byte-order comparison, so under `Reverse` every
      line that is not a number compares less than itself. */
  lemma ReverseNegatesStrings(c: Config, line1: string, line2: string)
    requires !(IsNumber(c, line1) && IsNumber(c, line2))
    ensures Less(c.(reverse := false), line1, line2) == StrLess(Key(c, line1), Key(c, line2))
    ensures Less(c.(reverse := true), line1, line2) == !Less(c.(reverse := false), line1, line2)
    ensures c.reverse ==> Less(c, line1, line1) != IsNumber(c, line1)
  {
    var on, off := c.(reverse := true), c.(reverse := false);
    KeyReadsKeyFlags(c, on, line1);
    KeyReadsKeyFlags(c, on, line2);
    KeyReadsKeyFlags(c, off, line1);
    KeyReadsKeyFlags(c, off, line2);
    StrLessIrreflexive(Key(c, line1));
  }

  lemma ParseNine()
    ensures ParseNum(TrimSpace("9")) == Wrappers.Some(9 as real)
  {
    assert ParseNum("9") == Wrappers.Some(9 as real) by {
      assert DigitRun("9") == 1;
      assert "9"[..1] == "9" && "9"[1..] == [];
    }
    TrimSpaceOfTrimmed("9");
  }

  lemma ParseTen()
    ensures ParseNum(TrimSpace("10")) == Wrappers.Some(10 as real)
  {
    assert ParseNum("10") == Wrappers.Some(10 as real) by {
      assert DigitRun("10") == 2;
      assert "10"[..2] == "10" && "10"[2..] == [];
      assert "10"[..1] == "1" && "1"[..0] == [];
      assert DigitsValue("1") == 1;
      assert DigitsValue("10") == 10;
    }
    TrimSpaceOfTrimmed("10");
  }

  lemma ParseFiveX()
    ensures ParseNum(TrimSpace("5x")).None?
  {
    assert ParseNum("5x").None? by {
      assert DigitRun("5x") == 1;
      assert "5x"[1..] == "x";
    }
    TrimSpaceOfTrimmed("5x");
  }

  lemma WholeLineKeyIsLine(c: Config, line: string)
    requires c.field == 0 && !c.ignoreCase && !c.ignoreLeadingBlanks
    ensures Key(c, line) == line
  {
  }

  /** In numeric mode the closure is not a strict weak order once numbers and other keys
      are mixed: "9" < "10" by value, "10" < "5x" and "5x" < "9" by byte order. */
  lemma NumericMixedKeysCycle(c: Config)
    requires c.numeric && !c.reverse && c.field == 0 && !c.ignoreCase && !c.ignoreLeadingBlanks
    ensures Less(c, "9", "10") && Less(c, "10", "5x") && Less(c, "5x", "9")
  {
    WholeLineKeyIsLine(c, "9");
    WholeLineKeyIsLine(c, "10");
    WholeLineKeyIsLine(c, "5x");
    assert CompareKeys(c, "9", "10") by {
      ParseNine();
      ParseTen();
    }
    assert CompareKeys(c, "10", "5x") by {
      ParseFiveX();
      assert StrLess("10", "5x");
    }
    assert CompareKeys(c, "5x", "9") by {
      ParseFiveX();
      assert StrLess("5x", "9");
    }
  }

  /** The un-reversed order the closure follows on keys of one kind: by value between
      numbers, by byte order otherwise. */
  function BelowKeys(c: Config, key1: string, key2: string): bool
  {
    if IsNumberKey(c, key1) && IsNumberKey(c, key2) then
      ParseNum(TrimSpace(key1)).value < ParseNum(TrimSpace(key2)).value
    else StrLess(key1, key2)
  }

  function Below(c: Config, line1: string, line2: string): bool
  {
    BelowKeys(c, Key(c, line1), Key(c, line2))
  }

  /** The closure is `Below`, with the operands swapped between two numbers and the answer
      negated otherwise when `Reverse` is set. */
  lemma LessIsBelow(c: Config, line1: string, line2: string)
    ensures !c.reverse ==> Less(c, line1, line2) == Below(c, line1, line2)
    ensures c.reverse && IsNumber(c, line1) && IsNumber(c, line2) ==>
              Less(c, line1, line2) == Below(c, line2, line1)
    ensures c.reverse && !(IsNumber(c, line1) && IsNumber(c, line2)) ==>
              Less(c, line1, line2) == !Below(c, line1, line2)
  {
  }

  lemma BelowAsymmetric(c: Config, x: string, y: string)
    requires Below(c, x, y)
    ensures !Below(c, y, x)
  {
    if !(IsNumber(c, x) && IsNumber(c, y)) {
      StrLessAsymmetric(Key(c, x), Key(c, y));
    }
  }

  lemma BelowNegTransitive(c: Config, x: string, y: string, z: string)
    requires IsNumber(c, x) == IsNumber(c, y) == IsNumber(c, z)
    requires !Below(c, y, x) && !Below(c, z, y)
    ensures !Below(c, z, x)
  {
    if !IsNumber(c, x) {
      StrLessNegTransitive(Key(c, x), Key(c, y), Key(c, z));
    }
  }

  /** All the lines are numbers, or none is (always so outside numeric mode). */
  ghost predicate Homogeneous(c: Config, lines: seq<string>) {
    forall x, y :: x in lines && y in lines ==> IsNumber(c, x) == IsNumber(c, y)
  }

  /** The order a sorted result has: ascending by `Below`, descending under `Reverse`. */
  ghost predicate Precedes(c: Config, x: string, y: string) {
    if c.reverse then !Below(c, x, y) else !Below(c, y, x)
  }

  ghost predicate Ordered(c: Config, lines: seq<string>) {
    forall i, j :: 0 <= i < j < |lines| ==> Precedes(c, lines[i], lines[j])
  }

  /** The closure is compatible with `Precedes` on lines of one kind. */
  lemma ComparatorCompatible(c: Config, lt: (string, string) -> bool, le: (string, string) -> bool,
                             lines: seq<string>)
    requires forall x, y :: lt(x, y) == Less(c, x, y)
    requires forall x, y :: le(x, y) == Precedes(c, x, y)
    requires Homogeneous(c, lines)
    ensures Compatible(lt, le, Elements(lines))
  {
    var vals := Elements(lines);
    forall x, y | lt(x, y) ensures le(x, y) {
      LessIsBelow(c, x, y);
      if !c.reverse || (IsNumber(c, x) && IsNumber(c, y)) {
        if c.reverse {
          BelowAsymmetric(c, y, x);
        } else {
          BelowAsymmetric(c, x, y);
        }
      }
    }
    forall x, y | !lt(x, y) ensures le(y, x) {
      LessIsBelow(c, x, y);
      if c.reverse && !(IsNumber(c, x) && IsNumber(c, y)) {
        BelowAsymmetric(c, x, y);
      }
    }
    forall x, y, z | x in vals && y in vals && z in vals && le(x, y) && le(y, z)
      ensures le(x, z)
    {
      if c.reverse {
        BelowNegTransitive(c, z, y, x);
      } else {
        BelowNegTransitive(c, x, y, z);
      }
    }
  }

  // ---------------------------------------------------------------------------
  // sortLines
  // ---------------------------------------------------------------------------

  /** `rand.Shuffle` with the swap closure: positions from the last down to 1 are each
      swapped with an arbitrary position at or before them (the random choice is left
      open). */
  method Shuffle(a: array<string>)
    modifies a
    ensures multiset(a[..]) == multiset(old(a[..]))
  {
    var i := a.Length - 1;
    while i > 0
      invariant i < a.Length
      invariant multiset(a[..]) == multiset(old(a[..]))
    {
      var j :| 0 <= j <= i;
      a[i], a[j] := a[j], a[i];
      i := i - 1;
    }
  }

  /** The unique filter: one pass with a `seen` map, keeping the first copy of each exact
      line. */
  method UniqueLines(sorted: seq<string>) returns (unique: seq<string>)
    ensures unique == Deduplicate(false, sorted)
  {
    unique := [];
    var seen: map<string, bool> := map[];
    for i := 0 to |sorted|
      invariant unique == Deduplicate(false, sorted[..i])
      invariant seen.Keys == Keys(false, sorted[..i])
      invariant forall k :: k in seen ==> seen[k]
    {
      var line := sorted[i];
      assert sorted[..i + 1][..i] == sorted[..i];
      if !(line in seen && seen[line]) {
        unique := unique + [line];
        seen := seen[line := true];
      }
    }
    assert sorted[..|sorted|] == sorted;
  }

  /** `sortLines`: a copy of the lines, shuffled and returned in random mode (no unique
      filter then); otherwise sorted by the closure, ordered when the lines are of one
      kind, and filtered on exact lines when `Unique` is set. `arranged` is the copy
      after shuffling or sorting. */
  method SortLines(c: Config, lines: seq<string>) returns (result: seq<string>, ghost arranged: seq<string>)
    ensures multiset(arranged) == multiset(lines)
    ensures !c.random && Homogeneous(c, lines) ==> Ordered(c, arranged)
    ensures result == if c.unique && !c.random then Deduplicate(false, arranged) else arranged
    ensures |result| <= |lines|
    ensures forall x :: x in result <==> x in lines
  {
    var sorted := new string[|lines|](k requires 0 <= k < |lines| => lines[k]);
    assert sorted[..] == lines;
    if c.random {
      Shuffle(sorted);
      PermutationCovers(sorted[..], lines);
      return sorted[..], sorted[..];
    }
    var lt := (x: string, y: string) => Less(c, x, y);
    ghost var le := (x: string, y: string) => Precedes(c, x, y);
    if Homogeneous(c, lines) {
      ComparatorCompatible(c, lt, le, lines);
    }
    SortSlice(sorted, lt, le);
    var copy := sorted[..];
    arranged := copy;
    if c.unique {
      result := UniqueLines(copy);
      FilterOfPermutation(false, copy, lines);
    } else {
      result := copy;
      PermutationCovers(copy, lines);
    }
  }
}
