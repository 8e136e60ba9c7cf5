/**
 * What both unique filters compute: walking the lines in order with a `seen` set of keys,
 * a line is kept when its key has not been seen yet. The key is the line itself, or the
 * line lower-cased when `fold` is set (only the sort.go filter ever folds).
 */
module Dedup {
  import opened Text

  function Key(fold: bool, line: string): string {
    if fold then ToLower(line) else line
  }

  /** The keys of all the lines. */
  function Keys(fold: bool, lines: seq<string>): (r: set<string>)
    ensures forall i :: 0 <= i < |lines| ==> Key(fold, lines[i]) in r
    decreases |lines|
  {
    if lines == [] then {}
    else Keys(fold, lines[..|lines| - 1]) + {Key(fold, lines[|lines| - 1])}
  }

  /** The lines the filter keeps: the last line survives when its key is new. */
  function Deduplicate(fold: bool, lines: seq<string>): seq<string>
    decreases |lines|
  {
    if lines == [] then []
    else
      var prefix := lines[..|lines| - 1];
      var last := lines[|lines| - 1];
      if Key(fold, last) in Keys(fold, prefix) then Deduplicate(fold, prefix)
      else Deduplicate(fold, prefix) + [last]
  }

  /** Line `i` is the first one with its key. */
  predicate IsFirst(fold: bool, lines: seq<string>, i: nat)
    requires i < |lines|
  {
    Key(fold, lines[i]) !in Keys(fold, lines[..i])
  }

  /** `idx` picks the elements of `r` out of `lines`, in increasing positions. */
  ghost predicate Embeds(r: seq<string>, lines: seq<string>, idx: seq<nat>) {
    && |idx| == |r|
    && (forall k :: 0 <= k < |idx| ==> idx[k] < |lines| && r[k] == lines[idx[k]])
    && (forall k, m :: 0 <= k < m < |idx| ==> idx[k] < idx[m])
  }

  /** Every key survives the filter, and no other key appears. */
  lemma {:induction false} UniqueKeys(fold: bool, lines: seq<string>)
    ensures Keys(fold, Deduplicate(fold, lines)) == Keys(fold, lines)
    decreases |lines|
  {
    if lines != [] {
      var prefix := lines[..|lines| - 1];
      var last := lines[|lines| - 1];
      UniqueKeys(fold, prefix);
      var u := Deduplicate(fold, prefix);
      if Key(fold, last) !in Keys(fold, prefix) {
        assert (u + [last])[..|u + [last]| - 1] == u;
      }
    }
  }

  /** No two kept lines share a key. */
  lemma {:induction false} UniqueDistinctKeys(fold: bool, lines: seq<string>)
    ensures forall i, j :: 0 <= i < j < |Deduplicate(fold, lines)| ==>
              Key(fold, Deduplicate(fold, lines)[i]) != Key(fold, Deduplicate(fold, lines)[j])
    decreases |lines|
  {
    if lines != [] {
      var prefix := lines[..|lines| - 1];
      var last := lines[|lines| - 1];
      UniqueDistinctKeys(fold, prefix);
      var u := Deduplicate(fold, prefix);
      if Key(fold, last) !in Keys(fold, prefix) {
        UniqueKeys(fold, prefix);
        var r := u + [last];
        forall i, j | 0 <= i < j < |r| ensures Key(fold, r[i]) != Key(fold, r[j]) {
          if j == |u| {
            assert Key(fold, u[i]) in Keys(fold, u);
          } else {
            assert r[i] == u[i] && r[j] == u[j];
          }
        }
      }
    }
  }

  /** The filter keeps exactly the first line of each key, in input order: it returns the
      positions it picked, which rise, hold the kept lines, and are precisely the first
      occurrences. */
  lemma {:induction false} UniqueKeepsFirsts(fold: bool, lines: seq<string>) returns (idx: seq<nat>)
    ensures Embeds(Deduplicate(fold, lines), lines, idx)
    ensures forall i :: 0 <= i < |lines| ==> (i in idx <==> IsFirst(fold, lines, i))
    decreases |lines|
  {
    if lines == [] {
      idx := [];
    } else {
      var n := |lines| - 1;
      var prefix := lines[..n];
      var last := lines[n];
      var p := UniqueKeepsFirsts(fold, prefix);
      forall i | 0 <= i < n ensures IsFirst(fold, lines, i) == IsFirst(fold, prefix, i) {
        assert lines[..i] == prefix[..i];
      }
      assert lines[..n] == prefix;
      if Key(fold, last) in Keys(fold, prefix) {
        idx := p;
      } else {
        idx := p + [n];
      }
    }
  }

  /** Every key comes from some line. */
  lemma {:induction false} KeysComeFromLines(fold: bool, lines: seq<string>)
    ensures forall y :: y in Keys(fold, lines) ==> exists i :: 0 <= i < |lines| && Key(fold, lines[i]) == y
    decreases |lines|
  {
    if lines != [] {
      var prefix := lines[..|lines| - 1];
      KeysComeFromLines(fold, prefix);
      forall y | y in Keys(fold, lines)
        ensures exists i :: 0 <= i < |lines| && Key(fold, lines[i]) == y
      {
        if y in Keys(fold, prefix) {
          var i :| 0 <= i < |prefix| && Key(fold, prefix[i]) == y;
          assert lines[i] == prefix[i];
        } else {
          assert Key(fold, lines[|lines| - 1]) == y;
        }
      }
    }
  }

  /** The filter only keeps input lines, and every input line is represented by a kept line
      with the same key. */
  lemma UniqueCovers(fold: bool, lines: seq<string>)
    ensures forall x :: x in Deduplicate(fold, lines) ==> x in lines
    ensures forall x :: x in lines ==> exists y :: y in Deduplicate(fold, lines) && Key(fold, y) == Key(fold, x)
  {
    var r := Deduplicate(fold, lines);
    var idx := UniqueKeepsFirsts(fold, lines);
    forall x | x in r ensures x in lines {
      var k :| 0 <= k < |r| && r[k] == x;
      assert lines[idx[k]] == x;
    }
    UniqueKeys(fold, lines);
    KeysComeFromLines(fold, r);
    forall x | x in lines ensures exists y :: y in r && Key(fold, y) == Key(fold, x) {
      var i :| 0 <= i < |lines| && lines[i] == x;
      assert Key(fold, lines[i]) in Keys(fold, r);
      var j :| 0 <= j < |r| && Key(fold, r[j]) == Key(fold, x);
      assert r[j] in r;
    }
  }

  /** A rearrangement has the length and the lines of the original. */
  lemma PermutationCovers(a: seq<string>, lines: seq<string>)
    requires multiset(a) == multiset(lines)
    ensures |a| == |lines|
    ensures forall x :: x in a <==> x in lines
  {
    assert |a| == |multiset(a)| == |multiset(lines)| == |lines|;
    assert forall x :: x in a <==> x in multiset(a);
    assert forall x :: x in lines <==> x in multiset(lines);
  }

  /** Filtering a rearrangement of `lines`: no longer than `lines`, only lines of `lines`,
      and a kept line for every key of `lines`. */
  lemma FilterOfPermutation(fold: bool, a: seq<string>, lines: seq<string>)
    requires multiset(a) == multiset(lines)
    ensures |Deduplicate(fold, a)| <= |lines|
    ensures forall x :: x in Deduplicate(fold, a) ==> x in lines
    ensures forall x :: x in lines ==> exists y :: y in Deduplicate(fold, a) && Key(fold, y) == Key(fold, x)
  {
    PermutationCovers(a, lines);
    UniqueSize(fold, a);
    UniqueCovers(fold, a);
  }

  /** A line whose key is already among the earlier lines is dropped; the first line of a
      key is kept. */
  lemma UniqueSize(fold: bool, lines: seq<string>)
    ensures |Deduplicate(fold, lines)| <= |lines|
    ensures lines != [] ==> Deduplicate(fold, lines) != [] && Deduplicate(fold, lines)[0] == lines[0]
  {
    var idx := UniqueKeepsFirsts(fold, lines);
    if lines != [] {
      assert lines[..0] == [];
      assert IsFirst(fold, lines, 0);
      assert 0 in idx;
      var k :| 0 <= k < |idx| && idx[k] == 0;
      if k > 0 {
        assert idx[0] < idx[k];
      }
    }
    assert forall k :: 0 <= k < |idx| ==> idx[k] < |lines|;
    IncreasingBound(idx, |lines|);
  }

  lemma {:induction false} IncreasingBound(idx: seq<nat>, n: nat)
    requires forall k :: 0 <= k < |idx| ==> idx[k] < n
    requires forall k, m :: 0 <= k < m < |idx| ==> idx[k] < idx[m]
    ensures |idx| <= n
    decreases |idx|
  {
    if idx != [] {
      var last := idx[|idx| - 1];
      IncreasingBound(idx[..|idx| - 1], last);
    }
  }
}
