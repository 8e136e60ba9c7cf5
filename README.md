# sort — a Dafny model of the two line-sorting engines

The repository `yupsh/sort` holds two independent implementations of a Unix-style `sort`:

- **sort.go** (flag record in `opt/opt.go`): each line gets a sort key (`extractSortKey`):
  the whole line, a white-space field, or a field of a literal split, and `""` when the
  field is missing. `comparLines` compares keys. In numeric mode numbers come before
  non-numbers, and `Reverse` is a plain negation. `applySorting` copies the lines and
  either runs a "random" swap loop or calls `sort.Slice`. `removeDuplicates` keeps the
  first line of each whole-line key, lower-cased with `IgnoreCase`. `sortAndOutput`
  chains these steps.
- **command.go** (flag record in `opt.go`): `sortLines` copies the lines. In random mode
  it shuffles them and returns them, without the unique pass. Otherwise it sorts them with a closure. The closure
  lower-cases and left-trims the whole line, then replaces the key with a field cut from
  the raw line by a literal split, keeping the whole-line key when that field is missing.
  It compares by value only when both trimmed keys parse, and otherwise by byte order.
  With `Unique`, a final pass keeps the first copy of each exact line.

The model keeps the engines apart:

- `SortEngine` models sort.go and `CommandEngine` models command.go.
- `EngineDifferences` proves, on concrete lines, the four places where the engines differ.
- `Options` holds the flag record as a value, the twelve option types with their
  `Configure` effect (`Apply`) and the twenty flag constants.
- `SortOpt.Flags` and `CommandOpt.Flags` are the two mutable records. Each has the twelve
  setters, proved against `Apply`.
- `SliceSort.SortSlice` stands in for `sort.Slice`. It is an in-place insertion sort on an
  array, and it always returns a permutation. It orders the array whenever the comparator
  is compatible with the intended order on the values being sorted.
- `Dedup` specifies the first-occurrence filter that both unique loops compute. Both
  loops are proved equal to it.
- `Text` and `Numbers` stand in for the `strings` functions and for `strconv.ParseFloat`
  (plain decimal notation only).

Neither engine's comparator is a strict weak order in every configuration:

- Under `Reverse`, sort.go's comparator says every line is less than itself
  (`SortEngine.ReverseSelfLess`). Its sorted output is therefore stated against the
  un-reversed comparison: ascending, or descending under `Reverse` (`SortEngine.Precedes`).
- In numeric mode, command.go's closure is cyclic once numbers and non-numbers are mixed:
  "9" < "10" < "5x" < "9" (`CommandEngine.NumericMixedKeysCycle`). Its output is ordered
  only for inputs whose keys are all numbers or all non-numbers
  (`CommandEngine.Homogeneous`). For other inputs it is only a permutation.

Where the repository's own test disagrees with its code, the model follows the code.
The test at sort_test.go:211-214 expects de-duplication on the sort key, but
`removeDuplicates` de-duplicates on the whole line (sort.go:212-216).

## Model

| member | source | states |
|---|---|---|
| Options.Apply | opt/opt.go:95-106 | configuring with an option stores the option's value, as given, in the option's own field |
| Options.ApplyAll | opt/opt.go:95-106 | the options applied one after another, in the order given; characterised by `Options.ApplyAllConcat`, `Options.ApplyAllKeeps`, `Options.LastOptionDecides` and `Options.LastWriterWins` (each field holds the value of the last option naming it, or keeps its old value when none does) |
| Options.ApplyKeepsOtherFields | opt/opt.go:95-106 | every `Configure` leaves the other eleven fields as they were |
| Options.LaterOptionWins | opt/opt.go:95-106 | of two options for the same field, applied in turn, the later one decides the record |
| Options.ApplyIdempotent | opt/opt.go:95-106 | configuring the same option twice gives the record that configuring it once gives |
| Options.LastOptionDecides | opt/opt.go:95-106 | after any sequence of options, the last option's field holds the last option's value |
| Options.ApplyAllConcat | opt/opt.go:95-106 | applying a run of options and then another is applying their concatenation |
| Options.ApplyAllKeeps | opt/opt.go:95-106 | a field that no option in the run names keeps its value |
| Options.LastWriterWins | opt/opt.go:95-106 | an option decides its field whenever no later option names the same field, whatever came before it |
| Options.ConstantsMeanTheirNames | opt/opt.go:10-76 | each constant targets the field its name says; `Reverse`…`StableSort` hold true, `NoReverse`…`NoStableSort` and `CaseSensitive` hold false |
| Options.StoredVerbatim | opt/opt.go:99-100 | `Field` stores any integer, zero and negative ones included, and `Delimiter` stores any string, "" included |
| SortOpt.Flags.constructor | opt/opt.go:79-92 | a fresh record holds Go's zero value in all twelve fields |
| SortOpt.Flags.ConfigureReverse | opt/opt.go:95 | writes `Reverse` only; the new record is `Apply` of the old one |
| SortOpt.Flags.ConfigureNumeric | opt/opt.go:96 | writes `Numeric` only; the new record is `Apply` of the old one |
| SortOpt.Flags.ConfigureUnique | opt/opt.go:97 | writes `Unique` only; the new record is `Apply` of the old one |
| SortOpt.Flags.ConfigureIgnoreCase | opt/opt.go:98 | writes `IgnoreCase` only; the new record is `Apply` of the old one |
| SortOpt.Flags.ConfigureField | opt/opt.go:99 | writes `Field` only, unchecked; the new record is `Apply` of the old one |
| SortOpt.Flags.ConfigureDelimiter | opt/opt.go:100 | writes `Delimiter` only, verbatim; the new record is `Apply` of the old one |
| SortOpt.Flags.ConfigureRandom | opt/opt.go:101 | writes `Random` only; the new record is `Apply` of the old one |
| SortOpt.Flags.ConfigureIgnoreLeadingBlanks | opt/opt.go:102 | writes `IgnoreLeadingBlanks` only; the new record is `Apply` of the old one |
| SortOpt.Flags.ConfigureVersionSort | opt/opt.go:103 | writes `VersionSort` only; the new record is `Apply` of the old one |
| SortOpt.Flags.ConfigureHumanNumeric | opt/opt.go:104 | writes `HumanNumeric` only; the new record is `Apply` of the old one |
| SortOpt.Flags.ConfigureMonthSort | opt/opt.go:105 | writes `MonthSort` only; the new record is `Apply` of the old one |
| SortOpt.Flags.ConfigureStableSort | opt/opt.go:106 | writes `StableSort` only; the new record is `Apply` of the old one |
| CommandOpt.Flags.constructor | opt.go:76-89 | a fresh record holds Go's zero value in all twelve fields |
| CommandOpt.Flags.ConfigureReverse | opt.go:91 | writes `Reverse` only; the new record is `Apply` of the old one |
| CommandOpt.Flags.ConfigureNumeric | opt.go:92 | writes `Numeric` only; the new record is `Apply` of the old one |
| CommandOpt.Flags.ConfigureUnique | opt.go:93 | writes `Unique` only; the new record is `Apply` of the old one |
| CommandOpt.Flags.ConfigureIgnoreCase | opt.go:94 | writes `IgnoreCase` only; the new record is `Apply` of the old one |
| CommandOpt.Flags.ConfigureField | opt.go:95 | writes `Field` only, unchecked; the new record is `Apply` of the old one |
| CommandOpt.Flags.ConfigureDelimiter | opt.go:96 | writes `Delimiter` only, verbatim; the new record is `Apply` of the old one |
| CommandOpt.Flags.ConfigureRandom | opt.go:97 | writes `Random` only; the new record is `Apply` of the old one |
| CommandOpt.Flags.ConfigureIgnoreLeadingBlanks | opt.go:98 | writes `IgnoreLeadingBlanks` only; the new record is `Apply` of the old one |
| CommandOpt.Flags.ConfigureVersionSort | opt.go:99 | writes `VersionSort` only; the new record is `Apply` of the old one |
| CommandOpt.Flags.ConfigureHumanNumeric | opt.go:100 | writes `HumanNumeric` only; the new record is `Apply` of the old one |
| CommandOpt.Flags.ConfigureMonthSort | opt.go:101 | writes `MonthSort` only; the new record is `Apply` of the old one |
| CommandOpt.Flags.ConfigureStableSort | opt.go:102 | writes `StableSort` only; the new record is `Apply` of the old one |
| Text.ToLower | sort.go:178 | same length; each upper-case letter becomes its lower-case partner (code point + 32), and every other character is unchanged |
| Text.ToLowerIdempotent | sort.go:215 | lower-casing twice is lower-casing once |
| Text.StrLess | sort.go:180 | Go's string `<`; characterised by `Text.StrLessLexicographic` and the order lemmas below |
| Text.StrLessLexicographic | sort.go:180 | `a < b` exactly when `a` is a proper prefix of `b`, or at the first position where they differ `a` has the smaller character |
| Text.StrLessIrreflexive | sort.go:180 | no string is byte-order-less than itself |
| Text.StrLessTransitive | sort.go:180 | byte order is transitive |
| Text.StrLessTotal | sort.go:180 | of two distinct strings one is less than the other |
| Text.StrLessAsymmetric | sort.go:180 | byte order is asymmetric |
| Text.StrLessNegTransitive | sort.go:180 | "not less" in byte order is transitive |
| Text.TrimLeftBlanks | command.go:58 | the result is a suffix of the input; only spaces and tabs were removed; it does not start with one |
| Text.TrimLeftSpace | command.go:79 | the result is a suffix of the input; only white space was removed; it does not start with any |
| Text.TrimRightSpace | command.go:79 | the result is a prefix of the input; only white space was removed; it does not end with any |
| Text.TrimSpace | command.go:79 | the result is the slice between a white-space prefix and a white-space suffix, and has white space at neither end |
| Text.TrimSpaceOfTrimmed | command.go:79 | a string with white space at neither end is its own `TrimSpace` |
| Text.WordEnd | sort.go:193 | the leading run of non-white-space characters ends at a white-space character or at the end |
| Text.Fields | sort.go:193 | no field is empty and no field holds white space |
| Text.FieldsDecompose | sort.go:193 | every line is its fields interleaved with white-space separators, the inner ones non-empty, so the fields are the maximal non-white-space runs |
| Text.FieldsOfInterleave | sort.go:193 | conversely, any non-empty white-space-free words interleaved with such separators have exactly those words as fields |
| Text.FieldsSkipsSpace | sort.go:193 | leading white space does not change the fields |
| Text.FieldsOfJoinSpaced | sort.go:193 | splitting space-joined words on white-space runs gives back the words |
| Text.OccursShift | sort.go:195 | the occurrences of a separator past the first character are the occurrences in the rest, shifted by one |
| Text.Index | sort.go:195 | a found position leaves room for the separator |
| Text.Count | sort.go:195 | the number of non-overlapping occurrences, found left to right; ties the piece count of `Text.Split` via `Text.SplitLength` |
| Text.IndexIsFirst | sort.go:195 | `Index` finds an occurrence and none starts earlier; `None` means there is none |
| Text.Explode | sort.go:195 | the empty separator yields one piece per character |
| Text.JoinExplode | sort.go:195 | joining the characters back gives the string |
| Text.Split | sort.go:195 | `strings.Split`; characterised by `Text.SplitJoin`, `Text.SplitLength`, `Text.SplitPiecesFree`, `Text.SplitLeftmost`, `Text.SplitNonEmpty` and, for the empty separator, `Text.Explode` |
| Text.SplitNonEmpty | sort.go:195 | a split with a non-empty separator yields at least one piece |
| Text.SplitJoin | sort.go:195 | joining the pieces of a split with the separator gives back the string |
| Text.SplitLength | sort.go:195 | a split yields (occurrences + 1) pieces |
| Text.SplitPiecesFree | sort.go:195 | no piece of a split contains the separator |
| Text.SplitLeftmost | sort.go:195 | every cut is at the leftmost occurrence: a piece other than the last, followed by the separator, holds no earlier occurrence of it, so a self-overlapping separator is cut as early as possible |
| Numbers.DigitValue | sort.go:147 | a digit's value is below ten |
| Numbers.DigitChar | sort.go:147 | the digit printed for a value below ten reads back as that value |
| Numbers.DigitRun | sort.go:147 | the leading digit run is all digits and ends at a non-digit or at the end |
| Numbers.FormatNat | sort.go:147 | a printed natural number is a non-empty digit string |
| Numbers.FormatNatValue | sort.go:147 | a printed natural number reads back as its value |
| Numbers.DigitRunOfDigits | sort.go:147 | an all-digit string is one digit run |
| Numbers.ParseDecimal | sort.go:147 | decimal syntax with its exact value; characterised by `Numbers.ParseFormatNat`, `Numbers.ParseFormatNegative`, `Numbers.ParseLeadingZero`, `Numbers.ParseFraction`, `Numbers.ParsePlusFraction`, `Numbers.ParseMinusFraction` and `Numbers.ParseNeedsDigit` |
| Numbers.ParseNum | sort.go:147 | a parsed value is always finite in float64; a key that is not well-formed decimal syntax never parses |
| Numbers.ParseFormatNat | sort.go:147 | every printed natural number parses back to itself when it is below the float64 overflow bound, and is an error otherwise |
| Numbers.ParseFormatNegative | sort.go:147 | with a minus sign in front, it parses to its negation, with the same overflow error |
| Numbers.LeadingZeroValue | sort.go:147 | a leading zero does not change a digit run's value |
| Numbers.ParseLeadingZero | sort.go:147 | a leading zero is accepted and ignored, and does not change the overflow error |
| Numbers.ParseNeedsDigit | sort.go:147 | a key without any digit never parses as a number |
| Numbers.FractionValue | sort.go:147 | the value of a key `a.d` lies between its whole part a and a + 1 |
| Numbers.SignedNum | sort.go:147 | a '+' in front of an unsigned key keeps its value and a '-' negates it, with the overflow error on both signs |
| Numbers.UnsignedFraction | sort.go:147 | digits, a '.' and digits read as the whole part plus the fraction digits over the matching power of ten |
| Numbers.ParseFraction | sort.go:147 | a key with a fractional part parses to its exact value below the float64 overflow bound ("1." is 1, "1.10" is 1.1) and is an error beyond it |
| Numbers.ParsePlusFraction | sort.go:147 | a leading '+' leaves that value unchanged |
| Numbers.ParseMinusFraction | sort.go:147 | a leading '-' negates that value, with the same overflow error |
| Numbers.DecimalKeysOrder | sort_test.go:376-381 | the keys "1.10", "1.2" and "1.5" parse to 1.1, 1.2 and 1.5, the numeric order the decimal test expects |
| SliceSort.Elements | sort.go:132-134 | exactly the values of the sequence |
| SliceSort.SortSlice | sort.go:132-134 | the array ends as a permutation of itself, ordered by the intended order whenever the comparator is compatible with it on the values present |
| Dedup.Keys | sort.go:208-225 | every line's key is among the keys |
| Dedup.Deduplicate | sort.go:208-225 | the first-occurrence filter; characterised by `Dedup.UniqueKeepsFirsts`, `Dedup.UniqueKeys`, `Dedup.UniqueDistinctKeys`, `Dedup.UniqueCovers` and `Dedup.UniqueSize` |
| Dedup.UniqueKeys | sort.go:208-225 | the kept lines have exactly the keys of all the lines |
| Dedup.UniqueDistinctKeys | sort.go:208-225 | no two kept lines share a key |
| Dedup.UniqueKeepsFirsts | sort.go:208-225 | the kept lines sit at rising positions of the input, and those positions are exactly the first occurrences of their keys |
| Dedup.IncreasingBound | sort.go:208-225 | rising positions below n number at most n |
| Dedup.KeysComeFromLines | sort.go:212-219 | every key in the `seen` set is the key of some line |
| Dedup.UniqueCovers | sort.go:208-225 | the filter keeps only input lines, and keeps a line with the key of every input line |
| Dedup.PermutationCovers | sort.go:118-137 | a rearranged copy has the length and the lines of the input |
| Dedup.FilterOfPermutation | sort.go:97-101 | filtering a rearranged copy yields at most as many lines as the input, only input lines, and one for every input key |
| Dedup.UniqueSize | sort.go:208-225 | the filter never grows the input and keeps the first line |
| SortEngine.Sort | sort.go:24-31 | the options applied to the zero record, with an empty delimiter replaced by " " and every other field as configured |
| SortEngine.SplitFields | sort.go:190-196 | white-space fields for the delimiter " ", a literal split otherwise; characterised by `Text.FieldsDecompose`, `SortEngine.WhitespaceKey`, `SortEngine.LiteralKey` and `SortEngine.EmptyDelimiterKey` |
| SortEngine.ExtractSortKey | sort.go:183-187 | field 0 keys on the whole line |
| SortEngine.ExtractSortKeyCases | sort.go:183-206 | field 0 gives the line; field k with 1 ≤ k ≤ #fields gives field k; any other field number, negative ones included, gives "" |
| SortEngine.WhitespaceKey | sort.go:191-193 | with delimiter " " a field key is empty exactly when the field is missing, and never holds white space |
| SortEngine.WhitespaceKeyOfWords | sort.go:191-193 | field k of space-joined words is word k; a field past the last word is "" |
| SortEngine.LiteralKey | sort.go:194-205 | any other non-empty delimiter splits literally into (occurrences + 1) pieces that rejoin to the line; the key never contains the delimiter |
| SortEngine.EmptyDelimiterKey | sort.go:195 | the empty delimiter makes each character a field |
| SortEngine.DefaultDelimiterSplitsWords | sort.go:27-29 | options naming only a field key on the white-space separated word of that number |
| SortEngine.StringCompare | sort.go:176-181 | `stringCompare`; characterised by `SortEngine.IgnoreCaseComparesFolded`, `SortEngine.CaseSensitiveIsTotal`, `SortEngine.StringCompareAsymmetric` and `SortEngine.StringCompareNegTransitive` |
| SortEngine.KeyLess | sort.go:143-166 | the value of `less` before `Reverse`, on two keys; characterised by `SortEngine.NumericDecisionTable` and `SortEngine.KeyLessIrreflexive` |
| SortEngine.Less | sort.go:139-166 | `KeyLess` on the keys of two lines; characterised by `SortEngine.LessAsymmetric`, `SortEngine.LessNegTransitive` and `SortEngine.LessReadsKeyFlags` |
| SortEngine.ComparLines | sort.go:139-174 | `comparLines`; characterised by `SortEngine.ReverseIsNegation`, `SortEngine.ReverseSelfLess`, `SortEngine.ComparatorIgnoresOtherFlags` and `SortEngine.ComparatorCompatible` |
| SortEngine.IgnoreCaseComparesFolded | sort.go:176-181 | with `IgnoreCase` the comparison is byte order on lower-cased keys, so keys differing only in case are unordered |
| SortEngine.CaseSensitiveIsTotal | sort.go:180 | without `IgnoreCase` two distinct keys are ordered one way or the other |
| SortEngine.StringCompareAsymmetric | sort.go:176-181 | `stringCompare` is asymmetric |
| SortEngine.StringCompareNegTransitive | sort.go:176-181 | "not less" under `stringCompare` is transitive |
| SortEngine.NumericDecisionTable | sort.go:145-162 | number < non-number; non-number never < number; numbers by value; non-numbers by `stringCompare` |
| SortEngine.NumericKeyNotTrimmed | sort.go:147 | a key with a leading blank is not a number, so it never comes before a number |
| SortEngine.ReverseIsNegation | sort.go:168-171 | switching `Reverse` on negates every answer of `comparLines` |
| SortEngine.LessReadsKeyFlags | sort.go:139-166 | the un-reversed comparison depends only on `Field`, `Delimiter`, `Numeric` and `IgnoreCase` |
| SortEngine.ComparatorIgnoresOtherFlags | sort.go:139-174 | `IgnoreLeadingBlanks` and the four inert flags never change `comparLines` |
| SortEngine.ReverseSelfLess | sort.go:168-173 | a line is less than itself exactly under `Reverse` |
| SortEngine.KeyLessIrreflexive | sort.go:143-166 | no key is less than itself before reversal |
| SortEngine.LessAsymmetric | sort.go:139-166 | the un-reversed comparison is asymmetric |
| SortEngine.LessNegTransitive | sort.go:139-166 | "not less" in the un-reversed comparison is transitive |
| SortEngine.ComparatorCompatible | sort.go:132-134 | `comparLines` is compatible with ascending order, or descending order under `Reverse`, on any lines |
| SortEngine.NumbersFirst | sort.go:153-158 | in an ascending numeric result every number precedes every non-number |
| SortEngine.PartnerIsSelf | sort.go:126 | `i % (i + 1)` is `i` |
| SortEngine.ApplySorting | sort.go:118-137 | the result is a permutation of the input; in random mode it is the input unchanged; otherwise it is ordered by the un-reversed comparison, ascending or descending under `Reverse` |
| SortEngine.RemoveDuplicates | sort.go:208-225 | the loop's result is the first-occurrence filter on whole lines, lower-cased with `IgnoreCase` |
| SortEngine.SortAndOutput | sort.go:91-102 | no lines give no output; otherwise the arranged lines are a permutation of the input (the input itself in random mode, ordered otherwise), and the output is them, de-duplicated when `Unique` is set; the output is never longer than the input, holds only input lines, and keeps a line for every input line's key |
| CommandEngine.Sort | command.go:14-21 | the options applied to the zero record, with an empty delimiter replaced by " " and every other field as configured |
| CommandEngine.WholeLineKey | command.go:50-60 | the whole-line key is never longer than the line |
| CommandEngine.Key | command.go:47-75 | the key the closure compares; characterised by `CommandEngine.WholeLineKeyFacts`, `CommandEngine.FieldKeyFromRawLine`, `CommandEngine.MissingFieldKeepsLine` and `CommandEngine.KeyReadsKeyFlags` |
| CommandEngine.WholeLineKeyFacts | command.go:50-60 | without a field: `IgnoreCase` turns each upper-case letter into its lower-case partner and leaves every other character; `IgnoreLeadingBlanks` strips a leading run of spaces and tabs and nothing else; without it the key is the (folded) line |
| CommandEngine.WholeLineKeyIsLine | command.go:47-60 | with no field and no folding or trimming, the key is the line |
| CommandEngine.FieldKeyFromRawLine | command.go:62-75 | an existing field is piece k of a literal split of the raw line, regardless of `IgnoreCase` and `IgnoreLeadingBlanks` |
| CommandEngine.MissingFieldKeepsLine | command.go:68-74 | a missing field leaves the whole-line key, as if no field had been asked for |
| CommandEngine.KeyReadsKeyFlags | command.go:47-75 | the key depends only on `Field`, `Delimiter`, `IgnoreCase` and `IgnoreLeadingBlanks` |
| CommandEngine.ClosureIgnoresOtherFlags | command.go:46-96 | the four inert flags never change the closure's answer |
| CommandEngine.CompareKeys | command.go:77-95 | the closure's comparison once both keys are known; characterised by `CommandEngine.NumericFallsThrough`, `CommandEngine.ReverseSwapsNumbers` and `CommandEngine.ReverseNegatesStrings` |
| CommandEngine.Less | command.go:46-96 | the closure on two lines; characterised by `CommandEngine.LessIsBelow`, `CommandEngine.NumericMixedKeysCycle` and `CommandEngine.ComparatorCompatible` |
| CommandEngine.NumericFallsThrough | command.go:77-88 | when either trimmed key does not parse, numeric mode answers as string mode does |
| CommandEngine.ReverseSwapsNumbers | command.go:82-86 | two numbers compare by value, and `Reverse` swaps the operands rather than negating |
| CommandEngine.ReverseNegatesStrings | command.go:90-95 | otherwise the answer is byte order, negated by `Reverse`, so under `Reverse` a non-number is less than itself and a number is not |
| CommandEngine.ParseNine | command.go:79-80 | "9" parses as 9 |
| CommandEngine.ParseTen | command.go:79-80 | "10" parses as 10 |
| CommandEngine.ParseFiveX | command.go:79-80 | "5x" does not parse |
| CommandEngine.NumericMixedKeysCycle | command.go:77-95 | in numeric mode "9" < "10" < "5x" < "9": the closure is not a strict weak order on mixed keys |
| CommandEngine.LessIsBelow | command.go:77-95 | the closure is `Below`, with the operands swapped between two numbers and the answer negated otherwise under `Reverse` |
| CommandEngine.BelowAsymmetric | command.go:77-95 | `Below` is asymmetric |
| CommandEngine.BelowNegTransitive | command.go:77-95 | "not below" is transitive among lines of one kind |
| CommandEngine.ComparatorCompatible | command.go:46-96 | the closure is compatible with ascending order, or descending order under `Reverse`, on lines that are all numbers or all non-numbers |
| CommandEngine.Shuffle | command.go:37-42 | the array ends as a permutation of itself |
| CommandEngine.UniqueLines | command.go:98-109 | the loop's result is the first-occurrence filter on exact lines |
| CommandEngine.SortLines | command.go:33-112 | the arranged copy is a permutation of the input, ordered when not random and all keys are of one kind; the result is the arranged copy, de-duplicated on exact lines when `Unique` is set and not random; the result is never longer than the input and holds exactly the input's distinct lines |
| EngineDifferences.MissingField | command.go:68-74 | a field past the end: sort.go keys on "", command.go on the whole-line key |
| EngineDifferences.FieldsOfSample | sort.go:193 | "a  b" has the white-space fields "a" and "b" |
| EngineDifferences.IndexOfSamples | command.go:65 | the first single space in "a  b" is at position 1 |
| EngineDifferences.SplitOfSample | command.go:65 | a literal split of "a  b" on " " gives "a", "" and "b" |
| EngineDifferences.WhitespaceDelimiter | sort.go:191-196 | with delimiter " ", field 2 of "a  b" is "b" in sort.go and "" in command.go |
| EngineDifferences.ParseOne | sort.go:147 | "1" parses as 1 |
| EngineDifferences.ParsePlus | sort.go:147 | "+" does not parse |
| EngineDifferences.SortSide | sort.go:153-158 | in sort.go's numeric mode "1" comes before "+" |
| EngineDifferences.CommandSide | command.go:82-95 | in command.go's numeric mode "+" comes before "1" by byte order |
| EngineDifferences.NumberAgainstNonNumber | sort.go:153-158 | the two engines order "1" and "+" oppositely in numeric mode |
| EngineDifferences.UniqueFolding | sort.go:213-216 | with folding "A" and "a" are one key, without it two |

## Left out

- Reading and writing are not modelled: `Execute`, `processReader`, `readLines`, the
  output loop and its cancellation checks (sort.go:33-89, sort.go:104-115), and
  `Executor` with the framework wrappers (command.go:23-30). They are reader/writer I/O
  and calls into a framework that is not part of this model.
- Parameter parsing by the framework (`opt.Args`, `yup.Initialize`) is not visible. Both
  `Sort` functions take the options as a sequence and apply each one's `Configure` in
  order (`Options.ApplyAll`).
- `strconv.ParseFloat` is modelled as exact decimal notation only: an optional sign,
  digits, and an optional fraction. A well-formed key whose magnitude reaches
  2^1024 - 2^970, where float64 rounding gives infinity, is an error as in Go (`ErrRange`).
  Exponents, `Inf`, `NaN`, hexadecimal floats, underscores and the rounding of in-range
  values to float64 are not modelled. Two keys with different exact values that round to
  the same float64 therefore compare as different numbers here and as equal in Go.
- `rand.Shuffle` is modelled by an arbitrary choice of swap partner at each step. Its
  distribution is not modelled.
- `sort.Slice` is modelled by an insertion sort. Go's algorithm is different, and with a
  comparator that is not a strict weak order its output is unspecified. The model only
  claims an order where the comparator is compatible with one.
- SortEngine.ApplySorting: under `Reverse` the order is stated against the un-reversed
  comparison, because the reversed comparator is not a strict weak order.
- CommandEngine.SortLines: order is promised only when all keys are numbers or none are,
  because the numeric closure is cyclic on mixed keys. For other inputs the result is
  only a permutation.
- Case folding, white space and byte order are ASCII only. `strings.ToLower`,
  `strings.Fields` and `strings.TrimSpace` also act on Unicode letters and spaces, which
  the model does not cover.
- Go strings are compared byte by byte, and the model compares characters. The two
  orders agree on ASCII and on valid UTF-8.
- The input lines are sequence values. That each engine leaves its caller's slice
  untouched holds by construction, and aliasing between the copy and the input is not
  modelled.
- A nil slice and an empty slice are not distinguished.
- `Field` is an unbounded integer. Go's `int(Field) - 1` could wrap only at the minimum
  integer, and the model gives the same `""` (sort.go) or whole-line key (command.go)
  that Go gives there.
- `VersionSort`, `HumanNumeric`, `MonthSort` and `StableSort` are stored by their
  setters and never read. sort.go also never reads `IgnoreLeadingBlanks`.
