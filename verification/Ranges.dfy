/** Address ranges and sorted lists of them (std::pair and std::sort of igen). */
module Ranges {
  /** first and second as in the generator's pairs; whether second belongs to the
      range depends on the list it is kept in. */
  datatype Range = Range(first: int, second: int)

  /** Lexicographic order of pairs. */
  predicate AtMost(a: Range, b: Range) {
    a.first < b.first || (a.first == b.first && a.second <= b.second)
  }

  predicate SortedRanges(s: seq<Range>) {
    forall i, j :: 0 <= i < j < |s| ==> AtMost(s[i], s[j])
  }

  function InsertSorted(r: Range, s: seq<Range>): seq<Range>
  {
    if s == [] || AtMost(r, s[0]) then [r] + s else [s[0]] + InsertSorted(r, s[1..])
  }

  lemma {:induction false} InsertSortedIs(r: Range, s: seq<Range>)
    requires SortedRanges(s)
    ensures SortedRanges(InsertSorted(r, s))
    ensures multiset(InsertSorted(r, s)) == multiset(s) + multiset{r}
    ensures |InsertSorted(r, s)| == |s| + 1
  {
    if s == [] || AtMost(r, s[0]) {
    } else {
      var t := InsertSorted(r, s[1..]);
      InsertSortedIs(r, s[1..]);
      assert s == [s[0]] + s[1..];
      forall i | 0 <= i < |t|
        ensures AtMost(s[0], t[i])
      {
        assert t[i] in multiset(t);
        assert t[i] == r || t[i] in s[1..];
      }
    }
  }

  /** std::sort on pairs. */
  function Sort(s: seq<Range>): (t: seq<Range>)
    ensures SortedRanges(t) && multiset(t) == multiset(s) && |t| == |s|
  {
    if s == [] then []
    else
      assert s == [s[0]] + s[1..];
      InsertSortedIs(s[0], Sort(s[1..]));
      InsertSorted(s[0], Sort(s[1..]))
  }

  /** A sorted list starts with its least element. */
  lemma FirstSame(s: seq<Range>, t: seq<Range>)
    requires SortedRanges(s) && SortedRanges(t) && multiset(s) == multiset(t) && s != []
    ensures t != [] && s[0] == t[0]
  {
    assert s[0] in multiset(t);
    assert s[0] in t;
    assert t[0] in multiset(s);
    assert t[0] in s;
  }

  lemma RestSame(s: seq<Range>, t: seq<Range>)
    requires multiset(s) == multiset(t) && s != [] && t != [] && s[0] == t[0]
    ensures multiset(s[1..]) == multiset(t[1..])
  {
    assert s == [s[0]] + s[1..] && t == [t[0]] + t[1..];
    assert multiset(s[1..]) == multiset(s) - multiset{s[0]};
    assert multiset(t[1..]) == multiset(t) - multiset{t[0]};
  }

  /** Sorting has only one result. */
  lemma {:induction false} SortedUnique(s: seq<Range>, t: seq<Range>)
    requires SortedRanges(s) && SortedRanges(t) && multiset(s) == multiset(t)
    ensures s == t
  {
    if s == [] {
      assert |multiset(t)| == 0;
    } else {
      FirstSame(s, t);
      RestSame(s, t);
      SortedUnique(s[1..], t[1..]);
      assert s == [s[0]] + s[1..] && t == [t[0]] + t[1..];
    }
  }
}
