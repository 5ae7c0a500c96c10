/**
 * The options of the year selector: the sentinel "All", then each year that
 * occurs in the publication list once, largest first. The page builds them
 * by mapping the list to its years, collecting them in a `Set` (first
 * occurrences, in order) and sorting with the comparator `b - a`.
 */
module YearOptions {
  import opened Text
  import opened Publications

  datatype YearOption = AllYears | Year(year: int)

  /** The option's value attribute: the string the selector hands to the filter. */
  function OptionValue(o: YearOption): string {
    match o
    case AllYears => AllYearsLabel
    case Year(y) => IntDecimal(y)
  }

  /** `pubs.map(p => p.year)`. */
  function YearsOf(pubs: seq<Publication>): (ys: seq<int>)
    ensures |ys| == |pubs|
    ensures forall i :: 0 <= i < |pubs| ==> ys[i] == pubs[i].year
  {
    if pubs == [] then [] else [pubs[0].year] + YearsOf(pubs[1..])
  }

  predicate NoDuplicates(s: seq<int>) {
    forall i, j :: 0 <= i < j < |s| ==> s[i] != s[j]
  }

  predicate Descending(s: seq<int>) {
    forall i, j :: 0 <= i < j < |s| ==> s[i] >= s[j]
  }

  predicate StrictlyDescending(s: seq<int>) {
    forall i, j :: 0 <= i < j < |s| ==> s[i] > s[j]
  }

  /** `Array.from(new Set(xs))`: each value once, at its first occurrence. */
  function Distinct(xs: seq<int>): (r: seq<int>)
    ensures forall x :: x in r <==> x in xs
    ensures NoDuplicates(r)
  {
    if xs == [] then []
    else
      var prefix := Distinct(xs[..|xs| - 1]);
      var last := xs[|xs| - 1];
      assert xs == xs[..|xs| - 1] + [last];
      if last in prefix then prefix else prefix + [last]
  }

  /** Puts `x` into a list in front of the first element it is not smaller than. */
  function InsertDescending(x: int, s: seq<int>): (r: seq<int>)
    ensures |r| == |s| + 1
    ensures forall y :: y in r <==> y == x || y in s
  {
    if s == [] || x >= s[0] then [x] + s
    else [s[0]] + InsertDescending(x, s[1..])
  }

  /** Insertion is a permutation of the list plus the new element. */
  lemma {:induction false} InsertPermutes(x: int, s: seq<int>)
    ensures multiset(InsertDescending(x, s)) == multiset(s) + multiset{x}
  {
    if s != [] && x < s[0] {
      InsertPermutes(x, s[1..]);
      assert s == [s[0]] + s[1..];
    }
  }

  /** `a` followed by `rest` is descending when `rest` is and `a` bounds it. */
  lemma ConsDescending(a: int, rest: seq<int>)
    requires Descending(rest)
    requires forall y :: y in rest ==> a >= y
    ensures Descending([a] + rest)
  {
    var r := [a] + rest;
    forall i, j | 0 <= i < j < |r|
      ensures r[i] >= r[j]
    {
      assert r[j] == rest[j - 1] && rest[j - 1] in rest;
      if i > 0 {
        assert r[i] == rest[i - 1];
      }
    }
  }

  /** `a` followed by `rest` has no duplicates when `rest` has none and lacks `a`. */
  lemma ConsNoDuplicates(a: int, rest: seq<int>)
    requires NoDuplicates(rest) && a !in rest
    ensures NoDuplicates([a] + rest)
  {
    var r := [a] + rest;
    forall i, j | 0 <= i < j < |r|
      ensures r[i] != r[j]
    {
      assert r[j] == rest[j - 1] && rest[j - 1] in rest;
      if i > 0 {
        assert r[i] == rest[i - 1];
      }
    }
  }

  /** Insertion into a descending list gives a descending list, without duplicates when `x` is new. */
  lemma {:induction false} InsertSorted(x: int, s: seq<int>)
    requires Descending(s)
    ensures Descending(InsertDescending(x, s))
    ensures x !in s && NoDuplicates(s) ==> NoDuplicates(InsertDescending(x, s))
  {
    if s == [] || x >= s[0] {
      ConsDescending(x, s);
      if x !in s && NoDuplicates(s) {
        ConsNoDuplicates(x, s);
      }
    } else {
      var tail := s[1..];
      assert Descending(tail);
      InsertSorted(x, tail);
      var rest := InsertDescending(x, tail);
      assert forall y :: y in tail ==> s[0] >= y;
      ConsDescending(s[0], rest);
      if x !in s && NoDuplicates(s) {
        assert s[0] !in tail;
        ConsNoDuplicates(s[0], rest);
      }
    }
  }

  /** `xs.sort((a, b) => b - a)`: the same values, largest first. */
  function SortDescending(xs: seq<int>): (r: seq<int>)
    ensures multiset(r) == multiset(xs)
    ensures Descending(r)
    ensures NoDuplicates(xs) ==> NoDuplicates(r)
  {
    if xs == [] then []
    else
      var rest := SortDescending(xs[1..]);
      assert xs == [xs[0]] + xs[1..];
      assert NoDuplicates(xs) ==> xs[0] !in xs[1..] && NoDuplicates(xs[1..]);
      assert xs[0] in rest <==> xs[0] in xs[1..] by {
        assert xs[0] in rest <==> xs[0] in multiset(rest);
      }
      InsertPermutes(xs[0], rest);
      InsertSorted(xs[0], rest);
      InsertDescending(xs[0], rest)
  }

  function ToOptions(ys: seq<int>): (os: seq<YearOption>)
    ensures |os| == |ys|
    ensures forall i :: 0 <= i < |ys| ==> os[i] == Year(ys[i])
  {
    if ys == [] then [] else [Year(ys[0])] + ToOptions(ys[1..])
  }

  lemma {:induction false} ToOptionsMembers(ys: seq<int>, y: int)
    ensures Year(y) in ToOptions(ys) <==> y in ys
  {
    if ys != [] {
      ToOptionsMembers(ys[1..], y);
      assert ToOptions(ys) == [Year(ys[0])] + ToOptions(ys[1..]);
      assert ys == [ys[0]] + ys[1..];
    }
  }

  /** The options of the year selector. */
  function Options(pubs: seq<Publication>): seq<YearOption> {
    [AllYears] + ToOptions(SortDescending(Distinct(YearsOf(pubs))))
  }

  /** A year is offered exactly when some publication has it. */
  predicate HasYear(pubs: seq<Publication>, y: int) {
    exists p :: p in pubs && p.year == y
  }

  /** The years of the list are the years some publication has. */
  lemma YearsOfMembership(pubs: seq<Publication>, y: int)
    ensures y in YearsOf(pubs) <==> HasYear(pubs, y)
  {
    var ys := YearsOf(pubs);
    if HasYear(pubs, y) {
      var p :| p in pubs && p.year == y;
      var i :| 0 <= i < |pubs| && pubs[i] == p;
      assert ys[i] == y;
    }
    if y in ys {
      var i :| 0 <= i < |ys| && ys[i] == y;
      assert pubs[i] in pubs;
    }
  }

  /** The sorted distinct years: strictly descending, and exactly the years of the list. */
  lemma SortedYears(pubs: seq<Publication>)
    ensures var sorted := SortDescending(Distinct(YearsOf(pubs)));
      && StrictlyDescending(sorted)
      && forall y :: y in sorted <==> HasYear(pubs, y)
  {
    var distinct := Distinct(YearsOf(pubs));
    var sorted := SortDescending(distinct);
    forall y
      ensures y in sorted <==> HasYear(pubs, y)
    {
      assert y in sorted <==> y in multiset(sorted);
      assert y in distinct <==> y in multiset(distinct);
      YearsOfMembership(pubs, y);
    }
  }

  /**
   * "All" comes first and nowhere else; the rest are years in strictly
   * descending order (so each at most once), every year of the list is
   * offered and no other year is.
   */
  lemma OptionsShape(pubs: seq<Publication>)
    ensures var os := Options(pubs);
      && |os| >= 1 && os[0] == AllYears
      && (forall i :: 1 <= i < |os| ==> os[i].Year?)
      && (forall i, j :: 1 <= i < j < |os| ==> os[i].year > os[j].year)
      && (forall y :: Year(y) in os <==> HasYear(pubs, y))
  {
    var sorted := SortDescending(Distinct(YearsOf(pubs)));
    SortedYears(pubs);
    var tail := ToOptions(sorted);
    var os := Options(pubs);
    assert os == [AllYears] + tail;
    assert forall i :: 1 <= i < |os| ==> os[i] == tail[i - 1];
    forall y
      ensures Year(y) in os <==> y in sorted
    {
      ToOptionsMembers(sorted, y);
      assert Year(y) in os <==> Year(y) in tail;
    }
  }

  /** The head of a strictly descending list is above every other element. */
  lemma HeadIsLargest(s: seq<int>, x: int)
    requires StrictlyDescending(s) && x in s
    ensures x <= s[0]
    ensures x != s[0] <==> x in s[1..]
    ensures x in s[1..] ==> x < s[0]
  {
    var i :| 0 <= i < |s| && s[i] == x;
    if i > 0 {
      assert s[1..][i - 1] == x;
    }
    if x in s[1..] {
      var k :| 0 <= k < |s| - 1 && s[1..][k] == x;
      assert s[k + 1] == x;
    }
  }

  /**
   * The order of the options does not depend on how they are sorted: two
   * strictly descending lists with the same elements are the same list.
   */
  lemma {:induction false} StrictlyDescendingUnique(s1: seq<int>, s2: seq<int>)
    requires StrictlyDescending(s1) && StrictlyDescending(s2)
    requires forall x :: x in s1 <==> x in s2
    ensures s1 == s2
  {
    if s1 != [] {
      assert s1[0] in s1;
    }
    if s2 != [] {
      assert s2[0] in s2;
    }
    if s1 != [] && s2 != [] {
      HeadIsLargest(s1, s2[0]);
      HeadIsLargest(s2, s1[0]);
      var t1, t2 := s1[1..], s2[1..];
      forall x
        ensures x in t1 <==> x in t2
      {
        if x in s1 {
          HeadIsLargest(s1, x);
          HeadIsLargest(s2, x);
        }
      }
      assert StrictlyDescending(t1) && StrictlyDescending(t2);
      StrictlyDescendingUnique(t1, t2);
      assert s1 == [s1[0]] + t1 && s2 == [s2[0]] + t2;
    }
  }

  /**
   * The options are fixed by the set of years alone: for any strictly
   * descending list of exactly the years present, they are "All" followed by
   * that list.
   */
  lemma OptionsDeterminedByYears(pubs: seq<Publication>, years: seq<int>)
    requires StrictlyDescending(years)
    requires forall y :: HasYear(pubs, y) <==> y in years
    ensures Options(pubs) == [AllYears] + ToOptions(years)
  {
    var sorted := SortDescending(Distinct(YearsOf(pubs)));
    SortedYears(pubs);
    StrictlyDescendingUnique(sorted, years);
  }

  /** No two options hand the same string to the filter (they are also the options' keys). */
  lemma OptionValuesDistinct(pubs: seq<Publication>)
    ensures var os := Options(pubs);
      forall i, j :: 0 <= i < j < |os| ==> OptionValue(os[i]) != OptionValue(os[j])
  {
    OptionsShape(pubs);
    var os := Options(pubs);
    forall i, j | 0 <= i < j < |os|
      ensures OptionValue(os[i]) != OptionValue(os[j])
    {
      if i == 0 {
        IntDecimalIsNotAll(os[j].year);
      } else {
        IntDecimalInjective(os[i].year, os[j].year);
      }
    }
  }

  /**
   * Choosing an offered year with an empty query never shows the placeholder:
   * it lists exactly the publications of that year, and there is one.
   */
  lemma OfferedYearListsItsPublications(pubs: seq<Publication>, y: int)
    requires Year(y) in Options(pubs)
    ensures forall p :: p in Listed(pubs, "", OptionValue(Year(y))) <==> p in pubs && p.year == y
    ensures !ShowsPlaceholder(Listed(pubs, "", OptionValue(Year(y))))
  {
    OptionsShape(pubs);
    ListedExactly(pubs, "", IntDecimal(y));
    forall p | p in pubs
      ensures YearMatches(p, IntDecimal(y)) <==> p.year == y
      ensures Contains(Haystack(p), Lower(""))
    {
      YearSelectionExact(p, y);
      ContainsEmpty(Haystack(p));
    }
    var p :| p in pubs && p.year == y;
    assert p in Listed(pubs, "", OptionValue(Year(y)));
  }
}
