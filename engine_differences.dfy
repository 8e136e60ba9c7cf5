/**
 * Where the two engines part ways on the same flag record: a missing field, the default
 * white-space delimiter, a number against a non-number, and case folding in the unique
 * filter.
 */
module EngineDifferences {
  import Wrappers
  import opened Text
  import opened Numbers
  import opened Options
  import opened Dedup
  import SortEngine
  import CommandEngine

  /** A field past the end of a literally split line: sort.go sorts on "", command.go keeps
      the whole-line key (the line itself when no case folding or trimming is asked for). */
  lemma MissingField(c: Config, line: string)
    requires c.field > 0 && c.delimiter != " " && c.field > |Split(line, c.delimiter)|
    ensures SortEngine.ExtractSortKey(c, line) == ""
    ensures CommandEngine.Key(c, line) == CommandEngine.WholeLineKey(c, line)
    ensures !c.ignoreCase && !c.ignoreLeadingBlanks ==> CommandEngine.Key(c, line) == line
  {
  }

  lemma FieldsOfSample()
    ensures Fields("a  b") == ["a", "b"]
  {
    assert WordEnd("a  b") == 1;
    assert "a  b"[..1] == "a" && "a  b"[1..] == "  b";
    assert Fields("  b") == Fields("b") by {
      FieldsSkipsSpace("  ", "b");
      assert "  " + "b" == "  b";
    }
    assert Fields("b") == ["b"] by {
      assert WordEnd("b") == 1;
      assert "b"[..1] == "b" && "b"[1..] == [];
    }
  }

  lemma IndexOfSamples()
    ensures Index("b", " ") == Wrappers.None
    ensures Index(" b", " ") == Wrappers.Some(0)
    ensures Index("a  b", " ") == Wrappers.Some(1)
  {
    assert Index("b", " ") == Wrappers.None by {
      assert "b"[..1] == "b" && "b"[1..] == [];
      assert Index([], " ") == Wrappers.None;
    }
    assert Index(" b", " ") == Wrappers.Some(0) by {
      assert " b"[..1] == " ";
    }
    assert Index("a  b", " ") == Wrappers.Some(1) by {
      assert "a  b"[..1] == "a";
      assert "a  b"[1..] == "  b";
      assert Index("  b", " ") == Wrappers.Some(0) by {
        assert "  b"[..1] == " ";
      }
    }
  }

  lemma SplitOfSample()
    ensures Split("a  b", " ") == ["a", "", "b"]
  {
    IndexOfSamples();
    assert Split("b", " ") == ["b"];
    assert Split(" b", " ") == ["", "b"] by {
      assert " b"[..0] == "" && " b"[1..] == "b";
    }
    assert "a  b"[..1] == "a" && "a  b"[2..] == " b";
  }

  /** The default delimiter " ": sort.go splits on white-space runs, command.go splits on
      each single space, so "a  b" has second field "b" in one and "" in the other. */
  lemma WhitespaceDelimiter(c: Config)
    requires c.delimiter == " " && c.field == 2
    ensures SortEngine.ExtractSortKey(c, "a  b") == "b"
    ensures CommandEngine.Key(c, "a  b") == ""
  {
    FieldsOfSample();
    SplitOfSample();
  }

  lemma ParseOne()
    ensures ParseNum("1") == Wrappers.Some(1 as real)
  {
    assert DigitRun("1") == 1;
    assert "1"[..1] == "1" && "1"[1..] == [];
  }

  lemma ParsePlus()
    ensures ParseNum("+").None?
  {
    assert "+"[1..] == [];
  }

  /** Numeric mode with "1" and "+": sort.go puts the number first, command.go falls back
      to byte order, where '+' comes before '1'. */
  lemma NumberAgainstNonNumber(c: Config)
    requires c.numeric && !c.reverse && c.field == 0 && !c.ignoreCase && !c.ignoreLeadingBlanks
    ensures SortEngine.ComparLines(c, "1", "+") && !SortEngine.ComparLines(c, "+", "1")
    ensures CommandEngine.Less(c, "+", "1") && !CommandEngine.Less(c, "1", "+")
  {
    SortSide(c);
    CommandSide(c);
  }

  lemma SortSide(c: Config)
    requires c.numeric && !c.reverse && c.field == 0
    ensures SortEngine.ComparLines(c, "1", "+") && !SortEngine.ComparLines(c, "+", "1")
  {
    ParseOne();
    ParsePlus();
    assert SortEngine.ExtractSortKey(c, "1") == "1";
    assert SortEngine.ExtractSortKey(c, "+") == "+";
  }

  lemma CommandSide(c: Config)
    requires c.numeric && !c.reverse && c.field == 0 && !c.ignoreCase && !c.ignoreLeadingBlanks
    ensures CommandEngine.Less(c, "+", "1") && !CommandEngine.Less(c, "1", "+")
  {
    CommandEngine.WholeLineKeyIsLine(c, "1");
    CommandEngine.WholeLineKeyIsLine(c, "+");
    assert ParseNum(TrimSpace("+")).None? by {
      ParsePlus();
      TrimSpaceOfTrimmed("+");
    }
    assert StrLess("+", "1") && !StrLess("1", "+");
  }

  /** The unique filters: sort.go with `IgnoreCase` folds case, command.go never does. */
  lemma UniqueFolding()
    ensures Deduplicate(true, ["A", "a"]) == ["A"]
    ensures Deduplicate(false, ["A", "a"]) == ["A", "a"]
  {
    assert ["A", "a"][..1] == ["A"] && ["A"][..0] == [];
    assert ToLower("A") == "a" && ToLower("a") == "a";
    assert Keys(true, ["A"]) == {"a"};
    assert Keys(false, ["A"]) == {"A"};
  }
}
