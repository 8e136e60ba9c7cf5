/**
 * The pieces of Go's `strings` package that the two sort engines use, restricted to
 * ASCII: case folding, byte-order comparison, trimming, splitting on white-space runs
 * (`strings.Fields`) and splitting on a literal separator (`strings.Split`).
 */
module Text {
  import opened Wrappers

  /** ASCII white space: '\t', '\n', '\v', '\f', '\r' and ' '. */
  predicate IsSpace(ch: char) {
    ch == ' ' || '\t' <= ch <= '\r'
  }

  /** The blanks trimmed by `strings.TrimLeft(s, " \t")`. */
  predicate IsBlank(ch: char) {
    ch == ' ' || ch == '\t'
  }

  predicate NoSpace(w: string) {
    forall i :: 0 <= i < |w| ==> !IsSpace(w[i])
  }

  predicate IsUpper(ch: char) {
    'A' <= ch <= 'Z'
  }

  function LowerChar(ch: char): (r: char)
    ensures !IsUpper(r)
    ensures IsUpper(ch) ==> r as int == ch as int + 32
    ensures !IsUpper(ch) ==> r == ch
  {
    if IsUpper(ch) then (ch as int + 32) as char else ch
  }

  // ---------------------------------------------------------------------------
  // Case folding
  // ---------------------------------------------------------------------------

  /** `strings.ToLower`, ASCII letters only: every upper-case letter becomes its lower-case
      partner and nothing else changes. */
  function ToLower(s: string): (r: string)
    ensures |r| == |s|
    ensures forall i :: 0 <= i < |r| ==> !IsUpper(r[i])
    ensures forall i :: 0 <= i < |s| && IsUpper(s[i]) ==> r[i] as int == s[i] as int + 32
    ensures forall i :: 0 <= i < |s| && !IsUpper(s[i]) ==> r[i] == s[i]
  {
    seq(|s|, i requires 0 <= i < |s| => LowerChar(s[i]))
  }

  lemma ToLowerIdempotent(s: string)
    ensures ToLower(ToLower(s)) == ToLower(s)
  {
  }

  // ---------------------------------------------------------------------------
  // Go's string `<`: lexicographic order on characters (byte order on UTF-8)
  // ---------------------------------------------------------------------------

  predicate StrLess(a: string, b: string)
    decreases |a|
  {
    if a == [] then b != []
    else if b == [] then false
    else if a[0] != b[0] then a[0] < b[0]
    else StrLess(a[1..], b[1..])
  }

  /** `StrLess` is lexicographic order: `a` is a proper prefix of `b`, or at the first
      position where they differ `a` has the smaller character. */
  lemma {:induction false} StrLessLexicographic(a: string, b: string)
    ensures StrLess(a, b) <==>
              || (|a| < |b| && a == b[..|a|])
              || (exists i :: 0 <= i < |a| && i < |b| && a[..i] == b[..i] && a[i] < b[i])
    decreases |a|
  {
    if a == [] || b == [] {
    } else if a[0] != b[0] {
      if StrLess(a, b) {
        assert a[..0] == b[..0];
      }
      forall i | 0 < i <= |a| && i <= |b| ensures a[..i] != b[..i] {
        assert a[..i][0] == a[0] && b[..i][0] == b[0];
      }
    } else {
      var a', b' := a[1..], b[1..];
      StrLessLexicographic(a', b');
      assert StrLess(a, b) == StrLess(a', b');
      if |a'| < |b'| && a' == b'[..|a'|] {
        assert a == [a[0]] + a' && b[..|a|] == [b[0]] + b'[..|a'|];
      }
      if |a| < |b| && a == b[..|a|] {
        assert a' == b'[..|a'|];
      }
      forall i | 0 <= i < |a'| && i < |b'| && a'[..i] == b'[..i] && a'[i] < b'[i]
        ensures a[..i + 1] == b[..i + 1] && a[i + 1] < b[i + 1]
      {
        assert a[..i + 1] == [a[0]] + a'[..i] && b[..i + 1] == [b[0]] + b'[..i];
      }
      forall i | 0 <= i < |a| && i < |b| && a[..i] == b[..i] && a[i] < b[i]
        ensures i > 0 && a'[..i - 1] == b'[..i - 1] && a'[i - 1] < b'[i - 1]
      {
        assert a'[..i - 1] == a[..i][1..] && b'[..i - 1] == b[..i][1..];
      }
    }
  }

  lemma {:induction false} StrLessIrreflexive(a: string)
    ensures !StrLess(a, a)
  {
    if a != [] {
      StrLessIrreflexive(a[1..]);
    }
  }

  lemma {:induction false} StrLessTransitive(a: string, b: string, c: string)
    requires StrLess(a, b) && StrLess(b, c)
    ensures StrLess(a, c)
    decreases |a|
  {
    if a != [] && b != [] && c != [] && a[0] == b[0] && b[0] == c[0] {
      StrLessTransitive(a[1..], b[1..], c[1..]);
    }
  }

  /** Two different strings are always ordered one way or the other. */
  lemma {:induction false} StrLessTotal(a: string, b: string)
    ensures a == b || StrLess(a, b) || StrLess(b, a)
    decreases |a|
  {
    if a != [] && b != [] && a[0] == b[0] {
      StrLessTotal(a[1..], b[1..]);
      if a[1..] == b[1..] {
        assert a == [a[0]] + a[1..] && b == [b[0]] + b[1..];
      }
    }
  }

  lemma {:induction false} StrLessAsymmetric(a: string, b: string)
    requires StrLess(a, b)
    ensures !StrLess(b, a)
  {
    if StrLess(b, a) {
      StrLessTransitive(a, b, a);
      StrLessIrreflexive(a);
    }
  }

  /** "Not less" is transitive, so `!StrLess(b, a)` is a total preorder. */
  lemma StrLessNegTransitive(a: string, b: string, c: string)
    requires !StrLess(b, a) && !StrLess(c, b)
    ensures !StrLess(c, a)
  {
    StrLessTotal(a, b);
    StrLessTotal(b, c);
    if StrLess(c, a) {
      if a == b {
      } else if b == c {
      } else {
        StrLessTransitive(c, a, b);
      }
    }
  }

  // ---------------------------------------------------------------------------
  // Trimming
  // ---------------------------------------------------------------------------

  /** `strings.TrimLeft(s, " \t")`: drops the leading run of spaces and tabs only. */
  function TrimLeftBlanks(s: string): (r: string)
    ensures |r| <= |s| && r == s[|s| - |r|..]
    ensures forall i :: 0 <= i < |s| - |r| ==> IsBlank(s[i])
    ensures r == [] || !IsBlank(r[0])
    decreases |s|
  {
    if s != [] && IsBlank(s[0]) then TrimLeftBlanks(s[1..]) else s
  }

  function TrimLeftSpace(s: string): (r: string)
    ensures |r| <= |s| && r == s[|s| - |r|..]
    ensures forall i :: 0 <= i < |s| - |r| ==> IsSpace(s[i])
    ensures r == [] || !IsSpace(r[0])
    decreases |s|
  {
    if s != [] && IsSpace(s[0]) then TrimLeftSpace(s[1..]) else s
  }

  function TrimRightSpace(s: string): (r: string)
    ensures |r| <= |s| && r == s[..|r|]
    ensures forall i :: |r| <= i < |s| ==> IsSpace(s[i])
    ensures r == [] || !IsSpace(r[|r| - 1])
    decreases |s|
  {
    if s != [] && IsSpace(s[|s| - 1]) then TrimRightSpace(s[..|s| - 1]) else s
  }

  /** A string without white space at either end is its own `TrimSpace`. */
  lemma TrimSpaceOfTrimmed(s: string)
    requires s == [] || (!IsSpace(s[0]) && !IsSpace(s[|s| - 1]))
    ensures TrimSpace(s) == s
  {
  }

  /** `strings.TrimSpace`: the slice of `s` between its leading and trailing white space. */
  function TrimSpace(s: string): (r: string)
    ensures exists i, j :: 0 <= i <= j <= |s| && r == s[i..j]
                           && (forall k :: 0 <= k < i ==> IsSpace(s[k]))
                           && (forall k :: j <= k < |s| ==> IsSpace(s[k]))
    ensures r == [] || (!IsSpace(r[0]) && !IsSpace(r[|r| - 1]))
  {
    var t := TrimLeftSpace(s);
    var r := TrimRightSpace(t);
    var i := |s| - |t|;
    assert r == s[i..i + |r|];
    r
  }

  // ---------------------------------------------------------------------------
  // strings.Fields: the maximal runs of non-white-space characters
  // ---------------------------------------------------------------------------

  /** Length of the leading run of non-white-space characters. */
  function WordEnd(s: string): (n: nat)
    ensures n <= |s|
    ensures forall i :: 0 <= i < n ==> !IsSpace(s[i])
    ensures n == |s| || IsSpace(s[n])
    decreases |s|
  {
    if s == [] || IsSpace(s[0]) then 0 else 1 + WordEnd(s[1..])
  }

  /** `strings.Fields`: no field is empty and no field holds white space. */
  function Fields(s: string): (r: seq<string>)
    ensures forall k :: 0 <= k < |r| ==> r[k] != [] && NoSpace(r[k])
    decreases |s|
  {
    if s == [] then []
    else if IsSpace(s[0]) then Fields(s[1..])
    else
      var n := WordEnd(s);
      [s[..n]] + Fields(s[n..])
  }

  /** Words joined by single spaces. */
  function JoinSpaced(ws: seq<string>): string
  {
    if ws == [] then "" else if |ws| == 1 then ws[0] else ws[0] + " " + JoinSpaced(ws[1..])
  }

  lemma WordEndOfWord(w: string, t: string)
    requires w != [] && NoSpace(w)
    requires t == [] || IsSpace(t[0])
    ensures WordEnd(w + t) == |w|
  {
    assert forall i :: 0 <= i < |w| ==> (w + t)[i] == w[i];
    assert |w| < |w + t| ==> (w + t)[|w|] == t[0];
  }

  /** Leading white space does not change the fields. */
  lemma {:induction false} FieldsSkipsSpace(sp: string, t: string)
    requires forall i :: 0 <= i < |sp| ==> IsSpace(sp[i])
    ensures Fields(sp + t) == Fields(t)
    decreases |sp|
  {
    if sp != [] {
      assert (sp + t)[0] == sp[0];
      assert (sp + t)[1..] == sp[1..] + t;
      FieldsSkipsSpace(sp[1..], t);
    } else {
      assert sp + t == t;
    }
  }

  /** Splitting single-space-joined words on white-space runs gives back the words:
      fields are exactly the maximal non-white-space runs. */
  lemma {:induction false} FieldsOfJoinSpaced(ws: seq<string>)
    requires forall k :: 0 <= k < |ws| ==> ws[k] != [] && NoSpace(ws[k])
    ensures Fields(JoinSpaced(ws)) == ws
  {
    if ws == [] {
    } else if |ws| == 1 {
      var w := ws[0];
      WordEndOfWord(w, "");
      assert w + "" == w;
      assert w[|w|..] == [];
      assert Fields(w) == [w[..|w|]] + Fields(w[|w|..]);
    } else {
      var w := ws[0];
      var rest := JoinSpaced(ws[1..]);
      var s := w + " " + rest;
      assert s == w + (" " + rest);
      WordEndOfWord(w, " " + rest);
      assert s[..|w|] == w;
      assert s[|w|..] == " " + rest;
      FieldsSkipsSpace(" ", rest);
      FieldsOfJoinSpaced(ws[1..]);
      assert Fields(s) == [w] + Fields(" " + rest);
    }
  }

  predicate AllSpace(w: string) {
    forall i :: 0 <= i < |w| ==> IsSpace(w[i])
  }

  /** `seps[0] + words[0] + seps[1] + ... + words[n - 1] + seps[n]`. */
  function Interleave(seps: seq<string>, words: seq<string>): string
    requires |seps| == |words| + 1
    decreases |words|
  {
    if words == [] then seps[0] else seps[0] + words[0] + Interleave(seps[1..], words[1..])
  }

  /** Separators between fields: all white space, and non-empty between two fields. */
  predicate Separators(seps: seq<string>) {
    && (forall k :: 0 <= k < |seps| ==> AllSpace(seps[k]))
    && (forall k :: 0 < k < |seps| - 1 ==> seps[k] != [])
  }

  predicate Words(ws: seq<string>) {
    forall k :: 0 <= k < |ws| ==> ws[k] != [] && NoSpace(ws[k])
  }

  lemma InterleavePrepend(p: string, t: seq<string>, words: seq<string>)
    requires |t| == |words| + 1
    ensures Interleave([p + t[0]] + t[1..], words) == p + Interleave(t, words)
  {
    var seps := [p + t[0]] + t[1..];
    assert seps[1..] == t[1..];
  }

  /** White space in front of the first separator keeps the separators well formed. */
  lemma SeparatorsPrepend(p: string, t: seq<string>)
    requires AllSpace(p) && Separators(t) && |t| >= 1
    ensures Separators([p + t[0]] + t[1..])
  {
    var seps := [p + t[0]] + t[1..];
    forall k | 0 < k < |seps| ensures seps[k] == t[k] {
    }
  }

  lemma SeparatorsAfterWord(t: seq<string>)
    requires Separators(t) && |t| >= 1 && (|t| > 1 ==> t[0] != [])
    ensures Separators([""] + t)
  {
    var seps := [""] + t;
    forall k | 0 < k < |seps| ensures seps[k] == t[k - 1] {
    }
  }

  /** Every line is its fields with white-space separators around and between them, the
      inner separators non-empty: the fields are the maximal non-white-space runs. */
  lemma {:induction false} FieldsDecompose(s: string) returns (seps: seq<string>)
    ensures |seps| == |Fields(s)| + 1
    ensures Separators(seps)
    ensures s == Interleave(seps, Fields(s))
    ensures s != [] && IsSpace(s[0]) ==> seps[0] != []
    decreases |s|
  {
    if s == [] {
      seps := [""];
    } else if IsSpace(s[0]) {
      var t := FieldsDecompose(s[1..]);
      seps := [[s[0]] + t[0]] + t[1..];
      InterleavePrepend([s[0]], t, Fields(s[1..]));
      assert [s[0]] + s[1..] == s;
      SeparatorsPrepend([s[0]], t);
    } else {
      var n := WordEnd(s);
      var w := s[..n];
      var rest := s[n..];
      var t := FieldsDecompose(rest);
      var ws := Fields(rest);
      seps := [""] + t;
      assert Fields(s) == [w] + ws;
      assert seps[1..] == t && ([w] + ws)[1..] == ws;
      assert Interleave(seps, [w] + ws) == "" + w + Interleave(t, ws);
      assert s == w + rest;
      assert |t| > 1 ==> rest != [] && IsSpace(rest[0]);
      SeparatorsAfterWord(t);
    }
  }

  /** Conversely, any words with such separators split back into exactly those words. */
  lemma {:induction false} FieldsOfInterleave(seps: seq<string>, words: seq<string>)
    requires |seps| == |words| + 1 && Separators(seps) && Words(words)
    ensures Fields(Interleave(seps, words)) == words
    decreases |words|
  {
    if words == [] {
      FieldsSkipsSpace(seps[0], "");
      assert seps[0] + "" == seps[0];
    } else {
      var w := words[0];
      var rest := Interleave(seps[1..], words[1..]);
      assert Interleave(seps, words) == seps[0] + (w + rest);
      FieldsSkipsSpace(seps[0], w + rest);
      assert rest == [] || IsSpace(rest[0]) by {
        if words[1..] != [] {
          assert seps[1] != [];
          assert rest == seps[1] + (words[1..][0] + Interleave(seps[1..][1..], words[1..][1..]));
        }
      }
      WordEndOfWord(w, rest);
      assert (w + rest)[..|w|] == w && (w + rest)[|w|..] == rest;
      FieldsOfInterleave(seps[1..], words[1..]);
      assert words == [w] + words[1..];
    }
  }

  // ---------------------------------------------------------------------------
  // strings.Index, strings.Count and strings.Split on a literal separator
  // ---------------------------------------------------------------------------

  predicate OccursAt(s: string, sep: string, i: nat) {
    i + |sep| <= |s| && s[i..i + |sep|] == sep
  }

  /** Occurrences in `s` past its first character are the occurrences in `s[1..]`, shifted. */
  lemma OccursShift(s: string, sep: string)
    requires s != []
    ensures forall j: nat :: 1 <= j ==> (OccursAt(s, sep, j) <==> OccursAt(s[1..], sep, j - 1))
  {
    forall j: nat | 1 <= j
      ensures OccursAt(s, sep, j) <==> OccursAt(s[1..], sep, j - 1)
    {
      if j + |sep| <= |s| {
        assert s[1..][j - 1..j - 1 + |sep|] == s[j..j + |sep|];
      }
    }
  }

  /** `strings.Index`: the position of the first occurrence of `sep`, if any
      (`IndexIsFirst` below states that it is the first one). */
  function Index(s: string, sep: string): (r: Option<nat>)
    requires sep != []
    ensures r.Some? ==> r.value + |sep| <= |s|
    decreases |s|
  {
    if |s| < |sep| then None
    else if s[..|sep|] == sep then Some(0)
    else
      var k := Index(s[1..], sep);
      if k.None? then None else Some(k.value + 1)
  }

  /** `Index` finds an occurrence, and none starts earlier; `None` means there is none. */
  lemma {:induction false} IndexIsFirst(s: string, sep: string)
    requires sep != []
    ensures Index(s, sep).Some? ==> OccursAt(s, sep, Index(s, sep).value)
    ensures Index(s, sep).Some? ==> forall j: nat :: j < Index(s, sep).value ==> !OccursAt(s, sep, j)
    ensures Index(s, sep).None? ==> forall j: nat :: !OccursAt(s, sep, j)
    decreases |s|
  {
    if |s| < |sep| {
    } else if s[..|sep|] == sep {
    } else {
      var t := s[1..];
      IndexIsFirst(t, sep);
      OccursShift(s, sep);
      assert !OccursAt(s, sep, 0);
      var k := Index(t, sep);
      if k.Some? {
        assert Index(s, sep) == Some(k.value + 1);
        forall j: nat | j < k.value + 1 ensures !OccursAt(s, sep, j) {
          if j > 0 {
            assert !OccursAt(t, sep, j - 1);
          }
        }
      } else {
        assert Index(s, sep) == None;
        forall j: nat ensures !OccursAt(s, sep, j) {
          if j > 0 {
            assert !OccursAt(t, sep, j - 1);
          }
        }
      }
    }
  }

  /** `strings.Count`: the number of non-overlapping occurrences, scanning left to right. */
  function Count(s: string, sep: string): nat
    requires sep != []
    decreases |s|
  {
    var r := Index(s, sep);
    if r.None? then 0 else 1 + Count(s[r.value + |sep|..], sep)
  }

  /** One-character pieces, which `strings.Split` returns for the empty separator. */
  function Explode(s: string): (r: seq<string>)
    ensures |r| == |s|
    ensures forall k :: 0 <= k < |r| ==> r[k] == [s[k]]
  {
    seq(|s|, i requires 0 <= i < |s| => [s[i]])
  }

  /** `strings.Split(s, sep)`. */
  function Split(s: string, sep: string): seq<string>
    decreases |s|
  {
    if sep == [] then Explode(s)
    else
      var r := Index(s, sep);
      if r.None? then [s] else [s[..r.value]] + Split(s[r.value + |sep|..], sep)
  }

  /** `strings.Join`. */
  function Join(parts: seq<string>, sep: string): string
  {
    if parts == [] then "" else if |parts| == 1 then parts[0] else parts[0] + sep + Join(parts[1..], sep)
  }

  lemma {:induction false} JoinExplode(s: string)
    ensures Join(Explode(s), "") == s
  {
    if |s| > 1 {
      JoinExplode(s[1..]);
      assert Explode(s)[1..] == Explode(s[1..]);
      assert s == [s[0]] + s[1..];
    }
  }

  /** A split always has at least one piece. */
  lemma SplitNonEmpty(s: string, sep: string)
    requires sep != []
    ensures Split(s, sep) != []
  {
  }

  /** Joining the pieces with the separator gives the line back. */
  lemma {:induction false} SplitJoin(s: string, sep: string)
    ensures Join(Split(s, sep), sep) == s
    decreases |s|
  {
    if sep == [] {
      JoinExplode(s);
    } else {
      var r := Index(s, sep);
      if r.Some? {
        var i := r.value;
        var rest := s[i + |sep|..];
        IndexIsFirst(s, sep);
        SplitJoin(rest, sep);
        SplitNonEmpty(rest, sep);
        assert Split(s, sep) == [s[..i]] + Split(rest, sep);
        assert s == s[..i] + sep + rest;
      }
    }
  }

  /** A literal split yields one more piece than there are separators. */
  lemma {:induction false} SplitLength(s: string, sep: string)
    requires sep != []
    ensures |Split(s, sep)| == Count(s, sep) + 1
    decreases |s|
  {
    var r := Index(s, sep);
    if r.Some? {
      var rest := s[r.value + |sep|..];
      SplitLength(rest, sep);
    }
  }

  /** No piece of a literal split contains the separator. */
  lemma {:induction false} SplitPiecesFree(s: string, sep: string)
    requires sep != []
    ensures forall k :: 0 <= k < |Split(s, sep)| ==> Index(Split(s, sep)[k], sep).None?
    decreases |s|
  {
    var r := Index(s, sep);
    IndexIsFirst(s, sep);
    if r.Some? {
      var i := r.value;
      var rest := s[i + |sep|..];
      SplitPiecesFree(rest, sep);
      var head := s[..i];
      IndexIsFirst(head, sep);
      if Index(head, sep).Some? {
        var j := Index(head, sep).value;
        assert head[j..j + |sep|] == s[j..j + |sep|];
        assert OccursAt(s, sep, j);
      }
      assert Split(s, sep) == [head] + Split(rest, sep);
    }
  }

  /** The first cut: the text before the first occurrence, followed by the separator, holds
      no earlier occurrence. */
  lemma FirstCutLeftmost(s: string, sep: string, i: nat)
    requires sep != [] && Index(s, sep) == Some(i)
    ensures forall j :: 0 <= j < i ==> !OccursAt(s[..i] + sep, sep, j)
  {
    IndexIsFirst(s, sep);
    var t := s[..i] + sep;
    assert t == s[..i + |sep|];
    forall j | 0 <= j < i
      ensures !OccursAt(t, sep, j)
    {
      assert t[j..j + |sep|] == s[j..j + |sep|];
      assert !OccursAt(s, sep, j);
    }
  }

  /** Each cut is at the leftmost occurrence: a piece other than the last, followed by the
      separator, holds no earlier occurrence of the separator. With `SplitJoin` and
      `SplitPiecesFree` this fixes the pieces even for a separator that overlaps itself. */
  lemma {:induction false} SplitLeftmost(s: string, sep: string)
    requires sep != []
    ensures forall k, j :: 0 <= k < |Split(s, sep)| - 1 && 0 <= j < |Split(s, sep)[k]| ==>
              !OccursAt(Split(s, sep)[k] + sep, sep, j)
    decreases |s|
  {
    var r := Index(s, sep);
    if r.Some? {
      IndexIsFirst(s, sep);
      var i := r.value;
      var rest := s[i + |sep|..];
      FirstCutLeftmost(s, sep, i);
      SplitLeftmost(rest, sep);
      var pieces := Split(s, sep);
      assert pieces == [s[..i]] + Split(rest, sep);
      forall k, j | 0 < k < |pieces| - 1 && 0 <= j < |pieces[k]|
        ensures !OccursAt(pieces[k] + sep, sep, j)
      {
        assert pieces[k] == Split(rest, sep)[k - 1];
      }
    }
  }
}
