/**
 * The in-place comparison sort both engines hand their copy of the lines to (`sort.Slice`
 * in Go). Modelled as an insertion sort over an array that swaps neighbours while the
 * comparator says the later one is less, as Go's own insertion pass does.
 *
 * A comparator `lt` comes with `le`, the order the result is meant to have. The sort
 * always permutes the array; it orders it by `le` when `lt` and `le` are compatible on
 * the values present (see `Compatible`). Neither engine's comparator is a strict weak
 * order in every configuration, so the engines prove compatibility only where it holds.
 */
module SliceSort {

  /** The distinct values of a sequence. */
  function Elements(s: seq<string>): (r: set<string>)
    ensures forall i :: 0 <= i < |s| ==> s[i] in r
    ensures forall x :: x in r ==> x in s
  {
    set x | x in s
  }

  ghost predicate SortedBy(le: (string, string) -> bool, s: seq<string>) {
    forall i, j :: 0 <= i < j < |s| ==> le(s[i], s[j])
  }

  /** On the values in `vals`: a pair that `lt` calls less may stand in that order, a pair
      that it does not call less may stand the other way round, and `le` is transitive. */
  ghost predicate Compatible(lt: (string, string) -> bool, le: (string, string) -> bool, vals: set<string>) {
    && (forall x, y :: x in vals && y in vals && lt(x, y) ==> le(x, y))
    && (forall x, y :: x in vals && y in vals && !lt(x, y) ==> le(y, x))
    && (forall x, y, z :: x in vals && y in vals && z in vals && le(x, y) && le(y, z) ==> le(x, z))
  }

  ghost predicate AllIn(s: seq<string>, vals: set<string>) {
    forall k :: 0 <= k < |s| ==> s[k] in vals
  }

  /** The first `n` elements are ordered by `le`. */
  ghost predicate PrefixSorted(le: (string, string) -> bool, s: seq<string>, n: nat)
    requires n <= |s|
  {
    forall p, q :: 0 <= p < q < n ==> le(s[p], s[q])
  }

  /** While element `j` sinks into the prefix `s[..i+1]`: the others are in order, and the
      ones it has passed are not below it. */
  ghost predicate Sinking(le: (string, string) -> bool, s: seq<string>, i: nat, j: nat)
    requires j <= i < |s|
  {
    && (forall p, q :: 0 <= p < q <= i && p != j && q != j ==> le(s[p], s[q]))
    && (forall q :: j < q <= i ==> le(s[j], s[q]))
  }

  lemma SwapStep(lt: (string, string) -> bool, le: (string, string) -> bool, vals: set<string>,
                 s: seq<string>, i: nat, j: nat)
    requires 0 < j <= i < |s| && AllIn(s, vals)
    requires Compatible(lt, le, vals) && Sinking(le, s, i, j)
    requires lt(s[j], s[j - 1])
    ensures Sinking(le, s[j - 1 := s[j]][j := s[j - 1]], i, j - 1)
  {
  }

  lemma SinkDone(lt: (string, string) -> bool, le: (string, string) -> bool, vals: set<string>,
                 s: seq<string>, i: nat, j: nat)
    requires j <= i < |s| && AllIn(s, vals)
    requires Compatible(lt, le, vals) && Sinking(le, s, i, j)
    requires j == 0 || !lt(s[j], s[j - 1])
    ensures PrefixSorted(le, s, i + 1)
  {
    if j > 0 {
      assert le(s[j - 1], s[j]);
      forall p | 0 <= p < j - 1 ensures le(s[p], s[j]) {
        assert le(s[p], s[j - 1]);
      }
    }
  }

  /** Exchanging two neighbours keeps the multiset and the value set. */
  lemma SwapKeeps(s: seq<string>, j: nat, vals: set<string>)
    requires 0 < j < |s| && AllIn(s, vals)
    ensures multiset(s[j - 1 := s[j]][j := s[j - 1]]) == multiset(s)
    ensures AllIn(s[j - 1 := s[j]][j := s[j - 1]], vals)
  {
  }

  /** Exchanges `a[j-1]` and `a[j]`. */
  method SwapDown(a: array<string>, j: nat)
    requires 0 < j < a.Length
    modifies a
    ensures a[..] == old(a[..])[j - 1 := old(a[j])][j := old(a[j - 1])]
  {
    a[j - 1], a[j] := a[j], a[j - 1];
  }

  /** One pass of the insertion sort: element `i` sinks into the sorted prefix before it. */
  method Insert(a: array<string>, i: nat, lt: (string, string) -> bool, ghost le: (string, string) -> bool,
                ghost vals: set<string>, ghost ok: bool)
    requires i < a.Length && AllIn(a[..], vals)
    requires ok ==> Compatible(lt, le, vals) && PrefixSorted(le, a[..], i)
    modifies a
    ensures multiset(a[..]) == multiset(old(a[..])) && AllIn(a[..], vals)
    ensures ok ==> PrefixSorted(le, a[..], i + 1)
  {
    var j := i;
    while j > 0 && lt(a[j], a[j - 1])
      invariant 0 <= j <= i
      invariant multiset(a[..]) == multiset(old(a[..])) && AllIn(a[..], vals)
      invariant ok ==> Sinking(le, a[..], i, j)
    {
      ghost var s := a[..];
      if ok {
        SwapStep(lt, le, vals, s, i, j);
      }
      SwapKeeps(s, j, vals);
      SwapDown(a, j);
      j := j - 1;
    }
    if ok {
      SinkDone(lt, le, vals, a[..], i, j);
    }
  }

  /** `sort.Slice(a, lt)`: permutes `a` in place, and orders it by `le` when the comparator
      is compatible with `le` on the values being sorted. */
  method SortSlice(a: array<string>, lt: (string, string) -> bool, ghost le: (string, string) -> bool)
    modifies a
    ensures multiset(a[..]) == multiset(old(a[..]))
    ensures Compatible(lt, le, Elements(old(a[..]))) ==> SortedBy(le, a[..])
  {
    ghost var vals := Elements(a[..]);
    ghost var ok := Compatible(lt, le, vals);
    var i := 0;
    while i < a.Length
      invariant 0 <= i <= a.Length
      invariant multiset(a[..]) == multiset(old(a[..])) && AllIn(a[..], vals)
      invariant ok ==> PrefixSorted(le, a[..], i)
    {
      Insert(a, i, lt, le, vals, ok);
      i := i + 1;
    }
  }
}
