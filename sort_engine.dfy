/**
 * The engine in sort.go: a sort key per line (whole line, a white-space field or a
 * literal-delimiter field, "" when the field is missing), a typed comparison that puts
 * numbers before non-numbers, `Reverse` as plain negation, a "random" mode whose swap
 * loop never moves anything, and a whole-line unique filter that folds case with
 * `IgnoreCase`. `IgnoreLeadingBlanks` and the four inert flags are never read here.
 */
module SortEngine {
  import Wrappers
  import opened Text
  import opened Numbers
  import opened Options
  import opened SliceSort
  import opened Dedup

  // ---------------------------------------------------------------------------
  // Construction
  // ---------------------------------------------------------------------------

  /** `Sort(parameters...)`: the options applied to the zero record, then an empty
      delimiter replaced by a single space. */
  function Sort(opts: seq<Option>): (c: Config)
    ensures ApplyAll(Zero, opts).delimiter == "" ==> c.delimiter == " "
    ensures ApplyAll(Zero, opts).delimiter != "" ==> c == ApplyAll(Zero, opts)
    ensures c == ApplyAll(Zero, opts).(delimiter := c.delimiter)
  {
    var f := ApplyAll(Zero, opts);
    if f.delimiter == "" then f.(delimiter := " ") else f
  }

  // ---------------------------------------------------------------------------
  // Keys
  // ---------------------------------------------------------------------------

  /** The fields of a line: white-space runs for the delimiter " ", a literal split for
      any other delimiter (one-character pieces for ""). */
  function SplitFields(c: Config, line: string): seq<string>
  {
    if c.delimiter == " " then Fields(line) else Split(line, c.delimiter)
  }

  /** `extractSortKey`. */
  function ExtractSortKey(c: Config, line: string): (key: string)
    ensures c.field == 0 ==> key == line
  {
    if c.field == 0 then line
    else
      var fields := SplitFields(c, line);
      var index := c.field - 1;
      if 0 <= index < |fields| then fields[index] else ""
  }

  /** The three cases of the key: the whole line for field 0, field `k` (counted from 1)
      when the line has it, and "" for every other field number, negative ones included. */
  lemma ExtractSortKeyCases(c: Config, line: string)
    ensures c.field == 0 ==> ExtractSortKey(c, line) == line
    ensures 1 <= c.field <= |SplitFields(c, line)| ==>
              ExtractSortKey(c, line) == SplitFields(c, line)[c.field - 1]
    ensures (c.field < 0 || c.field > |SplitFields(c, line)|) ==> ExtractSortKey(c, line) == ""
  {
  }

  /** With the delimiter " " a key taken from a field is never empty and holds no white
      space: fields are the maximal non-white-space runs. */
  lemma WhitespaceKey(c: Config, line: string)
    requires c.delimiter == " " && c.field != 0
    ensures ExtractSortKey(c, line) == "" <==> !(1 <= c.field <= |Fields(line)|)
    ensures NoSpace(ExtractSortKey(c, line))
  {
  }

  /** Words joined by single spaces come back as the fields: field `k` of such a line is
      word `k`, and any field past the last word is "". */
  lemma WhitespaceKeyOfWords(c: Config, ws: seq<string>)
    requires c.delimiter == " " && c.field != 0
    requires forall k :: 0 <= k < |ws| ==> ws[k] != [] && NoSpace(ws[k])
    ensures 1 <= c.field <= |ws| ==> ExtractSortKey(c, JoinSpaced(ws)) == ws[c.field - 1]
    ensures (c.field < 0 || c.field > |ws|) ==> ExtractSortKey(c, JoinSpaced(ws)) == ""
  {
    FieldsOfJoinSpaced(ws);
  }

  /** Any other non-empty delimiter is a literal split into (occurrences + 1) pieces that
      rejoin to the line; a field exists exactly when its number is at most that count,
      and its key never contains the delimiter. */
  lemma LiteralKey(c: Config, line: string)
    requires c.delimiter != " " && c.delimiter != "" && c.field != 0
    ensures |SplitFields(c, line)| == Count(line, c.delimiter) + 1
    ensures Join(SplitFields(c, line), c.delimiter) == line
    ensures ExtractSortKey(c, line) == "" || 1 <= c.field <= Count(line, c.delimiter) + 1
    ensures Index(ExtractSortKey(c, line), c.delimiter).None?
  {
    SplitLength(line, c.delimiter);
    SplitJoin(line, c.delimiter);
    SplitPiecesFree(line, c.delimiter);
    if ExtractSortKey(c, line) == "" {
      assert Index("", c.delimiter) == Wrappers.None;
    }
  }

  /** The empty delimiter splits a line into its characters. */
  lemma EmptyDelimiterKey(c: Config, line: string)
    requires c.delimiter == "" && 1 <= c.field <= |line|
    ensures ExtractSortKey(c, line) == [line[c.field - 1]]
  {
  }

  /** End to end: options naming only a field, with no delimiter, sort on the white-space
      separated word of that number. */
  lemma DefaultDelimiterSplitsWords(k: int, ws: seq<string>)
    requires 1 <= k <= |ws|
    requires forall i :: 0 <= i < |ws| ==> ws[i] != [] && NoSpace(ws[i])
    ensures ExtractSortKey(Sort([Field(k)]), JoinSpaced(ws)) == ws[k - 1]
  {
    var f := ApplyAll(Zero, [Field(k)]);
    assert [Field(k)][1..] == [];
    assert ApplyAll(Apply(Zero, Field(k)), []) == Apply(Zero, Field(k));
    assert f == Apply(Zero, Field(k));
    var c := Sort([Field(k)]);
    assert c.delimiter == " " && c.field == k;
    WhitespaceKeyOfWords(c, ws);
  }

  // ---------------------------------------------------------------------------
  // Comparison
  // ---------------------------------------------------------------------------

  /** `stringCompare`: byte order, on the lower-cased strings with `IgnoreCase`. */
  function StringCompare(c: Config, s1: string, s2: string): bool
  {
    if c.ignoreCase then StrLess(ToLower(s1), ToLower(s2)) else StrLess(s1, s2)
  }

  /** With `IgnoreCase` the comparison is the case-sensitive one on lower-cased keys, so
      keys that differ only in letter case are not less than each other either way. */
  lemma IgnoreCaseComparesFolded(c: Config, s1: string, s2: string)
    requires c.ignoreCase
    ensures StringCompare(c, s1, s2) == StringCompare(c.(ignoreCase := false), ToLower(s1), ToLower(s2))
    ensures ToLower(s1) == ToLower(s2) ==> !StringCompare(c, s1, s2) && !StringCompare(c, s2, s1)
  {
    StrLessIrreflexive(ToLower(s1));
  }

  /** Without `IgnoreCase`, distinct keys are always ordered one way or the other. */
  lemma CaseSensitiveIsTotal(c: Config, s1: string, s2: string)
    requires !c.ignoreCase && s1 != s2
    ensures StringCompare(c, s1, s2) != StringCompare(c, s2, s1)
  {
    StrLessTotal(s1, s2);
    if StrLess(s1, s2) {
      StrLessAsymmetric(s1, s2);
    }
  }

  lemma StringCompareAsymmetric(c: Config, s1: string, s2: string)
    requires StringCompare(c, s1, s2)
    ensures !StringCompare(c, s2, s1)
  {
    if c.ignoreCase {
      StrLessAsymmetric(ToLower(s1), ToLower(s2));
    } else {
      StrLessAsymmetric(s1, s2);
    }
  }

  lemma StringCompareNegTransitive(c: Config, x: string, y: string, z: string)
    requires !StringCompare(c, y, x) && !StringCompare(c, z, y)
    ensures !StringCompare(c, z, x)
  {
    if c.ignoreCase {
      StrLessNegTransitive(ToLower(x), ToLower(y), ToLower(z));
    } else {
      StrLessNegTransitive(x, y, z);
    }
  }

  /** The value of `less` in `comparLines` before `Reverse` is applied, on two keys. */
  function KeyLess(c: Config, k1: string, k2: string): bool
  {
    if c.numeric then
      var n1 := ParseNum(k1);
      var n2 := ParseNum(k2);
      if n1.None? && n2.None? then StringCompare(c, k1, k2)
      else if n1.None? then false
      else if n2.None? then true
      else n1.value < n2.value
    else StringCompare(c, k1, k2)
  }

  /** The same on two lines. */
  function Less(c: Config, line1: string, line2: string): bool
  {
    KeyLess(c, ExtractSortKey(c, line1), ExtractSortKey(c, line2))
  }

  /** `comparLines`. */
  function ComparLines(c: Config, line1: string, line2: string): bool
  {
    var less := Less(c, line1, line2);
    if c.reverse then !less else less
  }

  /** The numeric decision table (un-reversed): a number is less than a non-number, a
      non-number is never less than a number, two numbers compare by value and two
      non-numbers by `stringCompare`. */
  lemma NumericDecisionTable(c: Config, line1: string, line2: string)
    requires c.numeric && !c.reverse
    ensures var n1 := ParseNum(ExtractSortKey(c, line1));
            var n2 := ParseNum(ExtractSortKey(c, line2));
            && (n1.Some? && n2.None? ==> ComparLines(c, line1, line2))
            && (n1.None? && n2.Some? ==> !ComparLines(c, line1, line2))
            && (n1.Some? && n2.Some? ==> ComparLines(c, line1, line2) == (n1.value < n2.value))
            && (n1.None? && n2.None? ==>
                  ComparLines(c, line1, line2) == StringCompare(c, ExtractSortKey(c, line1), ExtractSortKey(c, line2)))
  {
  }

  /** Numeric keys are parsed as they are: a key with a leading blank is not a number. */
  lemma NumericKeyNotTrimmed(c: Config, line1: string, line2: string)
    requires c.numeric && !c.reverse && c.field == 0
    requires line1 != [] && line1[0] == ' ' && ParseNum(line2).Some?
    ensures !ComparLines(c, line1, line2)
  {
  }

  /** Switching `Reverse` on negates every answer of the comparator. */
  lemma ReverseIsNegation(c: Config, line1: string, line2: string)
    ensures ComparLines(c.(reverse := true), line1, line2) == !ComparLines(c.(reverse := false), line1, line2)
  {
    var on, off := c.(reverse := true), c.(reverse := false);
    LessReadsKeyFlags(on, off, line1, line2);
    assert ComparLines(on, line1, line2) == !Less(on, line1, line2);
    assert ComparLines(off, line1, line2) == Less(off, line1, line2);
  }

  /** The un-reversed comparison reads only `Field`, `Delimiter`, `Numeric` and
      `IgnoreCase`. */
  lemma LessReadsKeyFlags(c: Config, d: Config, line1: string, line2: string)
    requires c.field == d.field && c.delimiter == d.delimiter
    requires c.numeric == d.numeric && c.ignoreCase == d.ignoreCase
    ensures Less(c, line1, line2) == Less(d, line1, line2)
  {
    assert SplitFields(c, line1) == SplitFields(d, line1);
    assert SplitFields(c, line2) == SplitFields(d, line2);
    var k1, k2 := ExtractSortKey(c, line1), ExtractSortKey(c, line2);
    assert k1 == ExtractSortKey(d, line1) && k2 == ExtractSortKey(d, line2);
    assert StringCompare(c, k1, k2) == StringCompare(d, k1, k2);
  }

  /** `comparLines` reads `Reverse` besides those: `IgnoreLeadingBlanks`, `VersionSort`,
      `HumanNumeric`, `MonthSort` and `StableSort` never change an answer. */
  lemma ComparatorIgnoresOtherFlags(c: Config, d: Config, line1: string, line2: string)
    requires c.field == d.field && c.delimiter == d.delimiter
    requires c.numeric == d.numeric && c.ignoreCase == d.ignoreCase && c.reverse == d.reverse
    ensures ComparLines(c, line1, line2) == ComparLines(d, line1, line2)
  {
    LessReadsKeyFlags(c, d, line1, line2);
  }

  /** So under `Reverse` every line compares less than itself, and without it none does. */
  lemma ReverseSelfLess(c: Config, line: string)
    ensures ComparLines(c, line, line) == c.reverse
  {
    KeyLessIrreflexive(c, ExtractSortKey(c, line));
  }

  lemma KeyLessIrreflexive(c: Config, k: string)
    ensures !KeyLess(c, k, k)
  {
    StrLessIrreflexive(k);
    StrLessIrreflexive(ToLower(k));
  }

  /** The un-reversed comparison is a strict weak order: asymmetric ... */
  lemma LessAsymmetric(c: Config, line1: string, line2: string)
    requires Less(c, line1, line2)
    ensures !Less(c, line2, line1)
  {
    var k1, k2 := ExtractSortKey(c, line1), ExtractSortKey(c, line2);
    if StringCompare(c, k1, k2) {
      StringCompareAsymmetric(c, k1, k2);
    }
  }

  /** ... and "not less" is transitive. */
  lemma LessNegTransitive(c: Config, x: string, y: string, z: string)
    requires !Less(c, y, x) && !Less(c, z, y)
    ensures !Less(c, z, x)
  {
    var kx, ky, kz := ExtractSortKey(c, x), ExtractSortKey(c, y), ExtractSortKey(c, z);
    if !c.numeric || (ParseNum(kx).None? && ParseNum(ky).None? && ParseNum(kz).None?) {
      StringCompareNegTransitive(c, kx, ky, kz);
    }
  }

  /** The order a sorted result has: ascending by the un-reversed comparison, or descending
      by it under `Reverse` (the reversed comparator is not itself a strict weak order). */
  ghost predicate Precedes(c: Config, x: string, y: string) {
    if c.reverse then !Less(c, x, y) else !Less(c, y, x)
  }

  ghost predicate Ordered(c: Config, lines: seq<string>) {
    forall i, j :: 0 <= i < j < |lines| ==> Precedes(c, lines[i], lines[j])
  }

  /** `comparLines` is compatible with `Precedes` on any set of lines. */
  lemma ComparatorCompatible(c: Config, lt: (string, string) -> bool, le: (string, string) -> bool,
                             vals: set<string>)
    requires forall x, y :: lt(x, y) == ComparLines(c, x, y)
    requires forall x, y :: le(x, y) == Precedes(c, x, y)
    ensures Compatible(lt, le, vals)
  {
    forall x, y | Less(c, x, y) ensures !Less(c, y, x) {
      LessAsymmetric(c, x, y);
    }
    forall x, y, z | le(x, y) && le(y, z) ensures le(x, z) {
      if c.reverse {
        LessNegTransitive(c, z, y, x);
      } else {
        LessNegTransitive(c, x, y, z);
      }
    }
  }

  /** In numeric mode an ascending result lists every line whose key is a number before
      every line whose key is not. */
  lemma NumbersFirst(c: Config, lines: seq<string>)
    requires c.numeric && !c.reverse && Ordered(c, lines)
    ensures forall i, j :: 0 <= i < j < |lines| ==>
              !(ParseNum(ExtractSortKey(c, lines[i])).None? && ParseNum(ExtractSortKey(c, lines[j])).Some?)
  {
    forall i, j | 0 <= i < j < |lines|
      ensures !(ParseNum(ExtractSortKey(c, lines[i])).None? && ParseNum(ExtractSortKey(c, lines[j])).Some?)
    {
      assert Precedes(c, lines[i], lines[j]);
    }
  }

  // ---------------------------------------------------------------------------
  // applySorting, removeDuplicates, sortAndOutput
  // ---------------------------------------------------------------------------

  /** `i % (i + 1)` is `i`: the "pseudo-random" partner of position `i` is `i` itself. */
  lemma PartnerIsSelf(i: nat)
    ensures i % (i + 1) == i
  {
  }

  /** `applySorting`: a fresh copy of the lines, left as it is in random mode, and sorted
      by `comparLines` otherwise. The caller's lines are a value and cannot change. */
  method ApplySorting(c: Config, lines: seq<string>) returns (sorted: seq<string>)
    ensures multiset(sorted) == multiset(lines)
    ensures c.random ==> sorted == lines
    ensures !c.random ==> Ordered(c, sorted)
  {
    var result := new string[|lines|](k requires 0 <= k < |lines| => lines[k]);
    assert result[..] == lines;
    if c.random {
      var i := result.Length - 1;
      while i > 0
        invariant i < result.Length
        invariant result[..] == lines
      {
        PartnerIsSelf(i);
        var j := i % (i + 1);
        result[i], result[j] := result[j], result[i];
        i := i - 1;
      }
      return result[..];
    }
    var lt := (x: string, y: string) => ComparLines(c, x, y);
    ghost var le := (x: string, y: string) => Precedes(c, x, y);
    ComparatorCompatible(c, lt, le, Elements(lines));
    SortSlice(result, lt, le);
    sorted := result[..];
  }

  /** `removeDuplicates`: one pass with a `seen` map, keeping the first line of each key. */
  method RemoveDuplicates(c: Config, lines: seq<string>) returns (result: seq<string>)
    ensures result == Deduplicate(c.ignoreCase, lines)
  {
    var seen: map<string, bool> := map[];
    result := [];
    for i := 0 to |lines|
      invariant result == Deduplicate(c.ignoreCase, lines[..i])
      invariant seen.Keys == Keys(c.ignoreCase, lines[..i])
      invariant forall k :: k in seen ==> seen[k]
    {
      var line := lines[i];
      var key := line;
      if c.ignoreCase {
        key := ToLower(line);
      }
      assert lines[..i + 1][..i] == lines[..i];
      if !(key in seen && seen[key]) {
        seen := seen[key := true];
        result := result + [line];
      }
    }
    assert lines[..|lines|] == lines;
  }

  /** The sorting core of `sortAndOutput`: nothing for no lines; otherwise the lines
      arranged by `applySorting`, then filtered by `removeDuplicates` when `Unique` is set.
      `arranged` is the sorted slice before the filter. */
  method SortAndOutput(c: Config, lines: seq<string>) returns (out: seq<string>, ghost arranged: seq<string>)
    ensures lines == [] ==> out == []
    ensures multiset(arranged) == multiset(lines)
    ensures c.random ==> arranged == lines
    ensures !c.random ==> Ordered(c, arranged)
    ensures out == if c.unique then Deduplicate(c.ignoreCase, arranged) else arranged
    ensures |out| <= |lines|
    ensures forall x :: x in out ==> x in lines
    ensures forall x :: x in lines ==> exists y :: y in out && Key(c.ignoreCase, y) == Key(c.ignoreCase, x)
  {
    if |lines| == 0 {
      return [], [];
    }
    var sortedLines := ApplySorting(c, lines);
    arranged := sortedLines;
    if c.unique {
      sortedLines := RemoveDuplicates(c, sortedLines);
      FilterOfPermutation(c.ignoreCase, arranged, lines);
    } else {
      PermutationCovers(arranged, lines);
    }
    out := sortedLines;
  }
}
