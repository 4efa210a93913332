/** The record list view (`RecordListView.get_queryset` and its page size):
    the requester's records, narrowed by an optional case-insensitive text
    search and an optional numeric category, newest first, ten per page. */
module Listing {
  import opened Wrappers
  import opened Strings
  import opened Models

  // ---------------------------------------------------------------------
  // Order-preserving filtering
  // ---------------------------------------------------------------------

  /** The elements of `a` occur in `b` in the same order, possibly with other
      elements in between. */
  ghost predicate Subsequence<T>(a: seq<T>, b: seq<T>)
    decreases |b|
  {
    |a| == 0 || (|b| > 0 && ((a[0] == b[0] && Subsequence(a[1..], b[1..])) || Subsequence(a, b[1..])))
  }

  /** A queryset `.filter(...)`: keeps the rows satisfying `keep`, in order
      and with their multiplicity. */
  function Filter<T(!new)>(s: seq<T>, keep: T -> bool): (r: seq<T>)
    ensures forall x :: x in r <==> x in s && keep(x)
    ensures forall x :: multiset(r)[x] == if keep(x) then multiset(s)[x] else 0
    ensures Subsequence(r, s)
  {
    if |s| == 0 then []
    else
      var rest := Filter(s[1..], keep);
      assert s == [s[0]] + s[1..];
      assert multiset(s) == multiset{s[0]} + multiset(s[1..]);
      if keep(s[0]) then
        assert multiset([s[0]] + rest) == multiset{s[0]} + multiset(rest);
        assert ([s[0]] + rest)[1..] == rest;
        [s[0]] + rest
      else
        rest
  }

  /** Filters with pointwise-equal conditions agree. */
  lemma {:induction false} FilterExtensional<T(!new)>(s: seq<T>, p: T -> bool, q: T -> bool)
    requires forall x :: p(x) == q(x)
    ensures Filter(s, p) == Filter(s, q)
  {
    if |s| > 0 {
      FilterExtensional(s[1..], p, q);
    }
  }

  /** Two successive filters are one filter on the conjunction. */
  lemma {:induction false} FilterFilter<T(!new)>(s: seq<T>, p: T -> bool, q: T -> bool)
    ensures Filter(Filter(s, p), q) == Filter(s, x => p(x) && q(x))
  {
    if |s| > 0 {
      FilterFilter(s[1..], p, q);
      var fp := Filter(s, p);
      if p(s[0]) {
        assert fp[0] == s[0] && fp[1..] == Filter(s[1..], p);
      } else {
        assert fp == Filter(s[1..], p);
      }
    }
  }

  /** Successive filters commute. */
  lemma FilterCommutes<T(!new)>(s: seq<T>, p: T -> bool, q: T -> bool)
    ensures Filter(Filter(s, p), q) == Filter(Filter(s, q), p)
  {
    FilterFilter(s, p, q);
    FilterFilter(s, q, p);
    FilterExtensional(s, x => p(x) && q(x), x => q(x) && p(x));
  }

  lemma {:induction false} SubsequenceMembers<T>(a: seq<T>, b: seq<T>)
    requires Subsequence(a, b)
    ensures forall x :: x in a ==> x in b
    decreases |b|
  {
    if |a| > 0 {
      if a[0] == b[0] && Subsequence(a[1..], b[1..]) {
        SubsequenceMembers(a[1..], b[1..]);
        assert a == [a[0]] + a[1..];
        assert b == [b[0]] + b[1..];
      } else {
        SubsequenceMembers(a, b[1..]);
        assert b == [b[0]] + b[1..];
      }
    }
  }

  /** Any subsequence of a newest-first sequence is newest first. */
  lemma {:induction false} SubsequenceKeepsOrder(a: seq<Record>, b: seq<Record>)
    requires Subsequence(a, b) && SortedByDateDesc(b)
    ensures SortedByDateDesc(a)
    decreases |b|
  {
    if |a| > 0 {
      assert SortedByDateDesc(b[1..]);
      if a[0] == b[0] && Subsequence(a[1..], b[1..]) {
        SubsequenceKeepsOrder(a[1..], b[1..]);
        SubsequenceMembers(a[1..], b[1..]);
        ConsSorted(a[0], a[1..]) by {
          forall y | y in a[1..]
            ensures a[0].dateAdded >= y.dateAdded
          {
            var k :| 0 <= k < |b[1..]| && b[1..][k] == y;
            assert b[k + 1] == y;
          }
        }
        assert a == [a[0]] + a[1..];
      } else {
        SubsequenceKeepsOrder(a, b[1..]);
      }
    }
  }

  // ---------------------------------------------------------------------
  // The list view's filters
  // ---------------------------------------------------------------------

  /** The search: the title, property address, description or survey number
      contains the term, ignoring case; a null survey number matches
      nothing. */
  function MatchesSearch(record: Record, term: string): (b: bool)
    ensures b <==>
      || (exists k :: FoldedMatchAt(record.title, term, k))
      || (exists k :: FoldedMatchAt(record.propertyAddress, term, k))
      || (exists k :: FoldedMatchAt(record.description, term, k))
      || (record.surveyNumber.Some? && exists k :: FoldedMatchAt(record.surveyNumber.value, term, k))
  {
    || IContains(record.title, term)
    || IContains(record.propertyAddress, term)
    || IContains(record.description, term)
    || (record.surveyNumber.Some? && IContains(record.surveyNumber.value, term))
  }

  /** The category parameter is used only when it is present, non-empty and
      all digits. */
  predicate CategoryParamApplies(param: string) {
    param != "" && IsDigits(param)
  }

  /** The requester's own records, in table order. */
  function OwnedBy(rows: seq<Record>, requester: UserId): (r: seq<Record>)
    ensures forall x :: x in r <==> x in rows && x.owner == requester
    ensures forall x :: x in r ==> multiset(r)[x] == multiset(rows)[x]
    ensures Subsequence(r, rows)
  {
    Filter(rows, (x: Record) => x.owner == requester)
  }

  /** The text search, applied only for a non-empty term. */
  function SearchFilter(rows: seq<Record>, search: string): (r: seq<Record>)
    ensures forall x :: x in r <==> x in rows && (search != "" ==> MatchesSearch(x, search))
    ensures forall x :: x in r ==> multiset(r)[x] == multiset(rows)[x]
    ensures Subsequence(r, rows)
  {
    if search != "" then Filter(rows, (x: Record) => MatchesSearch(x, search))
    else
      SubsequenceReflexive(rows);
      rows
  }

  /** The category filter, applied only for an all-digit parameter; a record
      without a category never matches it. */
  function CategoryFilter(rows: seq<Record>, param: string): (r: seq<Record>)
    ensures forall x :: x in r <==>
      x in rows && (CategoryParamApplies(param) ==> x.category == Some(DigitsValue(param)))
    ensures forall x :: x in r ==> multiset(r)[x] == multiset(rows)[x]
    ensures Subsequence(r, rows)
  {
    if CategoryParamApplies(param) then
      var id := DigitsValue(param);
      Filter(rows, (x: Record) => x.category == Some(id))
    else
      SubsequenceReflexive(rows);
      rows
  }

  lemma {:induction false} SubsequenceReflexive<T>(s: seq<T>)
    ensures Subsequence(s, s)
  {
    if |s| > 0 {
      SubsequenceReflexive(s[1..]);
    }
  }

  /** `RecordListView.get_queryset` over the whole table: scope to the
      requester, then the text search, then the category, in the default
      newest-first ordering. A missing query parameter is "". The result holds
      exactly the requester's rows that pass every applicable filter, each as
      often as in the table, newest first. */
  function ListRecords(table: seq<Record>, requester: UserId, search: string, category: string)
    : (r: seq<Record>)
    ensures forall x :: x in r <==>
      && x in table
      && x.owner == requester
      && (search != "" ==> MatchesSearch(x, search))
      && (CategoryParamApplies(category) ==> x.category == Some(DigitsValue(category)))
    ensures forall x :: x in r ==> multiset(r)[x] == multiset(table)[x]
    ensures Subsequence(r, DefaultOrder(table))
    ensures SortedByDateDesc(r)
  {
    var ordered := DefaultOrder(table);
    var r := CategoryFilter(SearchFilter(OwnedBy(ordered, requester), search), category);
    StagesKeep(ordered, requester, search, category);
    forall x | x in ordered || x in table
      ensures x in ordered <==> x in table
    {
      assert x in ordered <==> x in multiset(ordered);
    }
    SubsequenceKeepsOrder(r, ordered);
    r
  }

  /** What the three stages keep, stated element by element. */
  lemma StagesKeep(rows: seq<Record>, requester: UserId, search: string, category: string)
    ensures var r := CategoryFilter(SearchFilter(OwnedBy(rows, requester), search), category);
      && (forall x :: x in r <==>
           && x in rows
           && x.owner == requester
           && (search != "" ==> MatchesSearch(x, search))
           && (CategoryParamApplies(category) ==> x.category == Some(DigitsValue(category))))
      && (forall x :: x in r ==> multiset(r)[x] == multiset(rows)[x])
      && Subsequence(r, rows)
  {
    var owned := OwnedBy(rows, requester);
    var searched := SearchFilter(owned, search);
    var r := CategoryFilter(searched, category);
    SubsequenceTransitive(searched, owned, rows);
    SubsequenceTransitive(r, searched, rows);
  }

  /** `Subsequence` is transitive. */
  lemma {:induction false} SubsequenceTransitive<T>(a: seq<T>, b: seq<T>, c: seq<T>)
    requires Subsequence(a, b) && Subsequence(b, c)
    ensures Subsequence(a, c)
    decreases |c|
  {
    if |a| > 0 {
      if a[0] == b[0] && Subsequence(a[1..], b[1..]) {
        if b[0] == c[0] && Subsequence(b[1..], c[1..]) {
          SubsequenceTransitive(a[1..], b[1..], c[1..]);
        } else {
          SubsequenceTransitive(a, b, c[1..]);
        }
      } else {
        if b[0] == c[0] && Subsequence(b[1..], c[1..]) {
          SubsequenceTransitive(a, b[1..], c[1..]);
        } else {
          SubsequenceTransitive(a, b, c[1..]);
        }
      }
    }
  }

  // ---------------------------------------------------------------------
  // Properties of the list view
  // ---------------------------------------------------------------------

  /** The search and category filters compose by AND: a record is listed
      exactly when it is listed with the search alone and with the category
      alone. */
  lemma FiltersComposeByAnd(table: seq<Record>, requester: UserId, search: string, category: string)
    ensures forall x :: x in ListRecords(table, requester, search, category) <==>
      x in ListRecords(table, requester, search, "") && x in ListRecords(table, requester, "", category)
  {
  }

  /** Applying the category filter before the search gives the same rows in
      the same order. */
  lemma FilterOrderIrrelevant(rows: seq<Record>, search: string, category: string)
    ensures CategoryFilter(SearchFilter(rows, search), category)
         == SearchFilter(CategoryFilter(rows, category), search)
  {
    if search != "" && CategoryParamApplies(category) {
      var id := DigitsValue(category);
      FilterCommutes(rows, (x: Record) => MatchesSearch(x, search), (x: Record) => x.category == Some(id));
    }
  }

  /** A category parameter that is not all digits is ignored, not an error. */
  lemma NonNumericCategoryIgnored(table: seq<Record>, requester: UserId, search: string, category: string)
    requires !IsDigits(category)
    ensures ListRecords(table, requester, search, category) == ListRecords(table, requester, search, "")
  {
  }

  /** The decimal rendering of a category id selects exactly that
      category's records. */
  lemma CategoryIdRoundTrip(table: seq<Record>, requester: UserId, search: string, id: CategoryId)
    ensures forall x :: x in ListRecords(table, requester, search, NatToDigits(id)) <==>
      x in ListRecords(table, requester, search, "") && x.category == Some(id)
  {
    DigitsRoundTrip(id);
  }

  /** Users never see each other's records. */
  lemma ListingIsScoped(table: seq<Record>, a: UserId, b: UserId, search: string, category: string)
    requires a != b
    ensures forall x :: x in ListRecords(table, a, search, category) ==> x.owner != b
  {
  }

  /** A record titled "Lakeview Plot" is found by "lake" and by "LAKE". */
  lemma SearchIgnoresCase(record: Record)
    requires record.title == "Lakeview Plot"
    ensures MatchesSearch(record, "lake") && MatchesSearch(record, "LAKE")
  {
    assert record.title[0..4] == "Lake";
    assert Lower("Lake") == "lake" && Lower("LAKE") == "lake";
    assert FoldedMatchAt(record.title, "lake", 0);
    assert FoldedMatchAt(record.title, "LAKE", 0);
  }

  /** With one record owned by `alice`, her unfiltered list is that record
      and any other user's list is empty. */
  lemma SingleOwnerScenario(r1: Record, alice: UserId, bob: UserId)
    requires r1.owner == alice && alice != bob
    ensures ListRecords([r1], alice, "", "") == [r1]
    ensures ListRecords([r1], bob, "", "") == []
  {
    var l := ListRecords([r1], alice, "", "");
    assert multiset(DefaultOrder([r1])) == multiset{r1};
    assert |DefaultOrder([r1])| == 1;
    assert DefaultOrder([r1]) == [r1];
    assert |l| <= 1 by {
      assert l == Filter([r1], (x: Record) => x.owner == alice);
    }
    assert r1 in l;
  }

  // ---------------------------------------------------------------------
  // Pagination: ten records per page
  // ---------------------------------------------------------------------

  const PageSize: nat := 10

  /** The page count of Django's paginator without orphans: at least one
      page, even for an empty list. */
  function NumPages(count: nat): (n: nat)
    ensures n >= 1
    ensures count == 0 ==> n == 1
    ensures count > 0 ==> (n - 1) * PageSize < count <= n * PageSize
  {
    if count == 0 then 1 else (count + PageSize - 1) / PageSize
  }

  /** Page `number` (1-based); `None` when the number is out of range, which
      the list view answers with "not found". */
  function Page<T>(rows: seq<T>, number: int): (r: Option<seq<T>>)
    ensures r.Some? <==> 1 <= number <= NumPages(|rows|)
    ensures r.Some? ==> |r.value| <= PageSize
    ensures r.Some? && |rows| > 0 ==> |r.value| > 0
    ensures r.Some? ==> forall i :: 0 <= i < |r.value| ==>
      (number - 1) * PageSize + i < |rows| && r.value[i] == rows[(number - 1) * PageSize + i]
  {
    if 1 <= number <= NumPages(|rows|) then
      var lo := (number - 1) * PageSize;
      assert |rows| > 0 ==> lo < |rows| by {
        if |rows| > 0 {
          assert (number - 1) * PageSize <= (NumPages(|rows|) - 1) * PageSize;
        }
      }
      var hi := if lo + PageSize < |rows| then lo + PageSize else |rows|;
      Some(rows[lo..hi])
    else None
  }

  /** An empty list has one empty page; every other number is "not found". */
  lemma EmptyListPages<T>(rows: seq<T>, number: int)
    requires |rows| == 0
    ensures Page(rows, number) == (if number == 1 then Some([]) else None)
  {
  }

  /** Every row appears on page `i / 10 + 1` at position `i % 10`. */
  lemma RowOnItsPage<T>(rows: seq<T>, i: int)
    requires 0 <= i < |rows|
    ensures var p := Page(rows, i / PageSize + 1);
      p.Some? && i % PageSize < |p.value| && p.value[i % PageSize] == rows[i]
  {
    var n := i / PageSize + 1;
    assert (n - 1) * PageSize + i % PageSize == i;
    assert n <= NumPages(|rows|);
    var p := Page(rows, n);
    var lo := (n - 1) * PageSize;
    assert p.value == rows[lo..if lo + PageSize < |rows| then lo + PageSize else |rows|];
  }
}
