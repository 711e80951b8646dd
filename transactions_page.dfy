/** The transaction list page: a free-text, type, month and year filter over the loaded
    transactions, shown most recent first; deletion by id; and the list of years offered
    in the year selector. */
module TransactionsPage {
  import opened Ledger
  import opened Seqs
  import opened DateSort
  import Dashboard

  // ---------------------------------------------------------------------------
  // Criteria

  /** The type selector: "all", or one kind. */
  datatype TypeFilter = AllTypes | OnlyKind(kind: Kind)

  /** The month and year selectors: "all", or one number (a month counted from 0, or a
      year), as the page obtains it with `Number.parseInt` of the selected option. */
  datatype Selector = All | Only(value: int)

  /** Everything the user has chosen in the filter card. */
  datatype Criteria = Criteria(
    searchTerm: string,
    typeFilter: TypeFilter,
    monthFilter: Selector,
    yearFilter: Selector)

  // ---------------------------------------------------------------------------
  // Case-insensitive text search

  /** `toLowerCase` on one character, for the letters A to Z. */
  function LowerChar(c: char): char
  {
    if 'A' <= c <= 'Z' then (c as int + ('a' as int - 'A' as int)) as char else c
  }

  /** `toLowerCase` on a string, character by character. */
  function Lower(s: string): (r: string)
    ensures |r| == |s|
    ensures forall i :: 0 <= i < |s| ==> r[i] == LowerChar(s[i])
  {
    seq(|s|, i requires 0 <= i < |s| => LowerChar(s[i]))
  }

  /** Lower-casing twice is lower-casing once, and the result has no capital left. */
  lemma LowerIdempotent(s: string)
    ensures Lower(Lower(s)) == Lower(s)
    ensures forall i :: 0 <= i < |s| ==> !('A' <= Lower(s)[i] <= 'Z')
  {
  }

  /** `needle` is found in `s` starting at position `i`. */
  predicate OccursAt(s: string, needle: string, i: int)
  {
    0 <= i && i + |needle| <= |s| && s[i..i + |needle|] == needle
  }

  /** `String.prototype.includes`: scans `s` for a position where `needle` starts. */
  predicate Includes(s: string, needle: string)
    ensures Includes(s, needle) ==> |needle| <= |s|
    decreases |s|
  {
    (|needle| <= |s| && s[..|needle|] == needle) || (s != [] && Includes(s[1..], needle))
  }

  /** Where the scan succeeds, it names a position at which `needle` starts. */
  lemma {:induction false} IncludesWitness(s: string, needle: string) returns (i: int)
    requires Includes(s, needle)
    ensures OccursAt(s, needle, i)
    decreases |s|
  {
    if |needle| <= |s| && s[..|needle|] == needle {
      i := 0;
    } else {
      var j := IncludesWitness(s[1..], needle);
      assert s[1..][j..j + |needle|] == s[j + 1..j + 1 + |needle|];
      i := j + 1;
    }
  }

  /** The scan reaches every position at which `needle` starts. */
  lemma {:induction false} IncludesFinds(s: string, needle: string, i: int)
    requires OccursAt(s, needle, i)
    ensures Includes(s, needle)
    decreases i
  {
    if i > 0 {
      assert s[1..][i - 1..i - 1 + |needle|] == s[i..i + |needle|];
      IncludesFinds(s[1..], needle, i - 1);
    }
  }

  /** The scan finds `needle` exactly when it occurs somewhere in `s`. */
  lemma IncludesIff(s: string, needle: string)
    ensures Includes(s, needle) <==> exists i :: OccursAt(s, needle, i)
  {
    if Includes(s, needle) {
      var i := IncludesWitness(s, needle);
    }
    forall i | OccursAt(s, needle, i) ensures Includes(s, needle) {
      IncludesFinds(s, needle, i);
    }
  }

  /** A needle is only found where its first character occurs. */
  lemma IncludesNeedsFirstChar(s: string, needle: string)
    requires needle != []
    ensures Includes(s, needle) ==> needle[0] in s
  {
    if Includes(s, needle) {
      var i := IncludesWitness(s, needle);
      assert s[i] == s[i..i + |needle|][0];
    }
  }

  /** The empty string is found in every string. */
  lemma IncludesEmpty(s: string)
    ensures Includes(s, [])
  {
    assert s[..0] == [];
  }

  // ---------------------------------------------------------------------------
  // The four criteria and the view they define

  /** Free-text criterion: ignored while the search box is empty. */
  predicate MatchesText(c: Criteria, t: Transaction)
  {
    c.searchTerm == [] || Includes(Lower(t.description), Lower(c.searchTerm))
  }

  predicate MatchesType(c: Criteria, t: Transaction)
  {
    c.typeFilter == AllTypes || t.kind == c.typeFilter.kind
  }

  predicate MatchesMonth(c: Criteria, t: Transaction)
  {
    c.monthFilter == All || t.date.month0 == c.monthFilter.value
  }

  predicate MatchesYear(c: Criteria, t: Transaction)
  {
    c.yearFilter == All || t.date.year == c.yearFilter.value
  }

  /** A transaction is shown when it satisfies every active criterion; with none
      active, every transaction is shown. */
  predicate Matches(c: Criteria, t: Transaction)
    ensures NoCriteria(c) ==> Matches(c, t)
  {
    MatchesText(c, t) && MatchesType(c, t) && MatchesMonth(c, t) && MatchesYear(c, t)
  }

  /** No criterion is active: empty search box and "all" in every selector. */
  predicate NoCriteria(c: Criteria)
  {
    c.searchTerm == [] && c.typeFilter == AllTypes && c.monthFilter == All && c.yearFilter == All
  }

  /** What the page lists: the matching transactions, most recent first, same-day
      transactions in their loaded order. */
  function View(ts: seq<Transaction>, c: Criteria): (r: seq<Transaction>)
    ensures |r| <= |ts|
    ensures SortedByDateDesc(r)
    ensures forall t :: t in r ==> t in ts && Matches(c, t)
  {
    var f := Filter(ts, t => Matches(c, t));
    SortByDateSorted(f);
    SortByDateMembers(f);
    SortByDate(f)
  }

  /** The listed transactions are exactly the loaded ones that satisfy every active
      criterion, each as often as it was loaded, ordered most recent first; there are
      never more of them than were loaded. */
  lemma ViewExact(ts: seq<Transaction>, c: Criteria)
    ensures forall t :: t in View(ts, c) <==> t in ts && Matches(c, t)
    ensures forall t :: multiset(View(ts, c))[t] == if Matches(c, t) then multiset(ts)[t] else 0
    ensures SortedByDateDesc(View(ts, c))
    ensures |View(ts, c)| <= |ts|
  {
    var m := t => Matches(c, t);
    var f := Filter(ts, m);
    SortByDatePermutation(f);
    FilterMultiset(ts, m);
    SortByDateSorted(f);
    forall t ensures t in View(ts, c) <==> t in ts && Matches(c, t) {
      assert t in View(ts, c) <==> t in multiset(View(ts, c));
      assert t in ts <==> t in multiset(ts);
    }
  }

  /** Transactions of the same day keep, in the list, the order they were loaded in. */
  lemma ViewStableTies(ts: seq<Transaction>, c: Criteria, d: Date)
    ensures DayRun(View(ts, c), d) == DayRun(Filter(ts, t => Matches(c, t)), d)
  {
    SortByDateStable(Filter(ts, t => Matches(c, t)), d);
  }

  /** With an empty search box and "all" everywhere, the page lists every loaded
      transaction, only reordered. */
  lemma ViewNoCriteria(ts: seq<Transaction>, c: Criteria)
    requires NoCriteria(c)
    ensures View(ts, c) == SortByDate(ts)
    ensures multiset(View(ts, c)) == multiset(ts)
  {
    FilterAllKept(ts, t => Matches(c, t));
    SortByDatePermutation(ts);
  }

  /** A search term found in no description empties the list, whatever the other
      selectors say; no error is raised. */
  lemma ViewNoTextMatch(ts: seq<Transaction>, c: Criteria)
    requires c.searchTerm != []
    requires forall t :: t in ts ==> !Includes(Lower(t.description), Lower(c.searchTerm))
    ensures View(ts, c) == []
  {
    FilterNoneKept(ts, t => Matches(c, t));
  }

  /** The search ignores case on both sides: lower-casing the search term, or the
      description, does not change which transactions match. */
  lemma SearchIgnoresCase(c: Criteria, t: Transaction)
    ensures MatchesText(c.(searchTerm := Lower(c.searchTerm)), t) == MatchesText(c, t)
    ensures MatchesText(c, t.(description := Lower(t.description))) == MatchesText(c, t)
  {
    LowerIdempotent(c.searchTerm);
    LowerIdempotent(t.description);
  }

  /** The text criterion is substring containment after lower-casing. */
  lemma MatchesTextIff(c: Criteria, t: Transaction)
    ensures MatchesText(c, t) <==>
      c.searchTerm == [] || exists i :: OccursAt(Lower(t.description), Lower(c.searchTerm), i)
  {
    IncludesIff(Lower(t.description), Lower(c.searchTerm));
  }

  // ---------------------------------------------------------------------------
  // The filter effect

  /** A fresh array holding `s`, as `Array.prototype.filter` returns one. */
  method NewArray(s: seq<Transaction>) returns (a: array<Transaction>)
    ensures fresh(a) && a[..] == s
  {
    a := new Transaction[|s|](i requires 0 <= i < |s| => s[i]);
  }

  /** The filtering half of the page's effect. Each active criterion replaces
      `filtered` by a freshly filtered array; when no criterion is active no filter
      runs, so `filtered` is still the loaded `transactions` array itself. */
  method SelectMatches(transactions: array<Transaction>, c: Criteria)
    returns (filtered: array<Transaction>)
    ensures filtered[..] == Filter(transactions[..], t => Matches(c, t))
    ensures NoCriteria(c) ==> filtered == transactions
    ensures !NoCriteria(c) ==> fresh(filtered)
  {
    ghost var all := transactions[..];
    ghost var upToText := t => MatchesText(c, t);
    ghost var upToType := t => MatchesText(c, t) && MatchesType(c, t);
    ghost var upToMonth := t => MatchesText(c, t) && MatchesType(c, t) && MatchesMonth(c, t);
    ghost var upToYear := t => Matches(c, t);

    filtered := transactions;

    if c.searchTerm != [] {
      var term := Lower(c.searchTerm);
      var byText := (t: Transaction) => Includes(Lower(t.description), term);
      filtered := NewArray(Filter(filtered[..], byText));
      FilterExt(all, byText, upToText);
    } else {
      FilterAllKept(all, upToText);
    }
    assert filtered[..] == Filter(all, upToText);

    if c.typeFilter != AllTypes {
      var kind := c.typeFilter.kind;
      var byType := (t: Transaction) => t.kind == kind;
      filtered := NewArray(Filter(filtered[..], byType));
      FilterConj(all, upToText, byType, upToType);
    } else {
      FilterExt(all, upToText, upToType);
    }
    assert filtered[..] == Filter(all, upToType);

    if c.monthFilter != All {
      var month := c.monthFilter.value;
      var byMonth := (t: Transaction) => t.date.month0 == month;
      filtered := NewArray(Filter(filtered[..], byMonth));
      FilterConj(all, upToType, byMonth, upToMonth);
    } else {
      FilterExt(all, upToType, upToMonth);
    }
    assert filtered[..] == Filter(all, upToMonth);

    if c.yearFilter != All {
      var year := c.yearFilter.value;
      var byYear := (t: Transaction) => t.date.year == year;
      filtered := NewArray(Filter(filtered[..], byYear));
      FilterConj(all, upToMonth, byYear, upToYear);
    } else {
      FilterExt(all, upToMonth, upToYear);
    }
  }

  /** The page's filter effect: the matching transactions, then the in-place sort,
      most recent first. When no criterion is active the sort reorders the loaded
      `transactions` array itself; otherwise it works on a fresh array and the loaded
      one is left as it was. */
  method ApplyFilters(transactions: array<Transaction>, c: Criteria)
    returns (filtered: array<Transaction>)
    modifies transactions
    ensures filtered[..] == View(old(transactions[..]), c)
    ensures NoCriteria(c) ==> filtered == transactions
    ensures !NoCriteria(c) ==> fresh(filtered) && transactions[..] == old(transactions[..])
  {
    filtered := SelectMatches(transactions, c);
    SortInPlace(filtered);
  }

  // ---------------------------------------------------------------------------
  // Deleting a transaction

  /** The list without the transactions that carry `id`, as the page updates both
      of its lists after a successful delete. */
  function RemoveById(ts: seq<Transaction>, id: string): (r: seq<Transaction>)
    ensures |r| <= |ts|
    ensures forall t :: t in r ==> t in ts && t.id != id
  {
    Filter(ts, (t: Transaction) => t.id != id)
  }

  /** Deleting removes exactly the transactions with that id: every other one stays,
      as often as before and in the same order, and the length drops by the number of
      removed entries. */
  lemma RemoveByIdExact(ts: seq<Transaction>, id: string)
    ensures forall t :: multiset(RemoveById(ts, id))[t] == if t.id == id then 0 else multiset(ts)[t]
    ensures Subsequence(RemoveById(ts, id), ts)
    ensures |RemoveById(ts, id)| + |Filter(ts, (t: Transaction) => t.id == id)| == |ts|
    ensures (forall t :: t in ts ==> t.id != id) ==> RemoveById(ts, id) == ts
  {
    var keep := (t: Transaction) => t.id != id;
    FilterMultiset(ts, keep);
    FilterSubsequence(ts, keep);
    FilterComplementLength(ts, keep, (t: Transaction) => t.id == id);
    if forall t :: t in ts ==> t.id != id {
      FilterAllKept(ts, keep);
    }
  }

  /** The page removes the id from the listed view directly rather than recomputing
      it; the two agree: the view with the id removed is the view of the list with the
      id removed. */
  lemma RemoveByIdCommutesWithView(ts: seq<Transaction>, c: Criteria, id: string)
    ensures RemoveById(View(ts, c), id) == View(RemoveById(ts, id), c)
  {
    var m := t => Matches(c, t);
    var keep := (t: Transaction) => t.id != id;
    FilterSortByDate(Filter(ts, m), keep);
    FilterCommute(ts, m, keep);
  }

  /** Viewing a list the page has already sorted in place gives the same list as
      viewing it unsorted: the in-place sort never changes a later view. */
  lemma ViewOfSorted(ts: seq<Transaction>, c: Criteria)
    ensures View(SortByDate(ts), c) == View(ts, c)
  {
    var m := t => Matches(c, t);
    FilterSortByDate(ts, m);
    SortByDateIdempotent(Filter(ts, m));
  }

  /** After a delete the page removes the id from both of its lists; the filter effect
      then runs again on the new loaded list. Whether that list was left as loaded or
      (no criterion active) sorted in place, the re-run lists what the page already
      shows. */
  lemma RerunAfterDelete(ts: seq<Transaction>, c: Criteria, id: string)
    ensures View(RemoveById(ts, id), c) == RemoveById(View(ts, c), id)
    ensures View(RemoveById(SortByDate(ts), id), c) == RemoveById(View(ts, c), id)
  {
    RemoveByIdCommutesWithView(ts, c, id);
    RemoveByIdCommutesWithView(SortByDate(ts), c, id);
    ViewOfSorted(ts, c);
  }

  // ---------------------------------------------------------------------------
  // The year selector

  /** The year of every loaded transaction, in list order. */
  function YearsOf(ts: seq<Transaction>): (r: seq<int>)
    ensures |r| == |ts|
    ensures forall i :: 0 <= i < |ts| ==> r[i] == ts[i].date.year
  {
    seq(|ts|, i requires 0 <= i < |ts| => ts[i].date.year)
  }

  /** `Array.from(new Set(s))`: each value once, at the place it first occurs. */
  function Distinct(s: seq<int>): (r: seq<int>)
    ensures |r| <= |s|
    ensures forall y :: y in r ==> y in s
  {
    if s == [] then []
    else if s[|s| - 1] in s[..|s| - 1] then Distinct(s[..|s| - 1])
    else Distinct(s[..|s| - 1]) + [s[|s| - 1]]
  }

  predicate NoDuplicates(s: seq<int>)
  {
    forall i, j :: 0 <= i < j < |s| ==> s[i] != s[j]
  }

  /** The distinct values are those of `s`, each once. */
  lemma {:induction false} DistinctExact(s: seq<int>)
    ensures forall y :: y in Distinct(s) <==> y in s
    ensures NoDuplicates(Distinct(s))
  {
    if s != [] {
      var init, last := s[..|s| - 1], s[|s| - 1];
      DistinctExact(init);
      assert s == init + [last];
    }
  }

  /** Place `x` in the non-increasing `s` before the first element not above it. */
  function InsertDescending(s: seq<int>, x: int): (r: seq<int>)
    ensures multiset(r) == multiset(s) + multiset{x}
  {
    if s == [] || x >= s[0] then [x] + s
    else
      assert s == [s[0]] + s[1..];
      [s[0]] + InsertDescending(s[1..], x)
  }

  /** `sort((a, b) => b - a)`: numbers in non-increasing order. */
  function SortDescending(s: seq<int>): (r: seq<int>)
    ensures multiset(r) == multiset(s)
  {
    if s == [] then []
    else
      assert s == [s[0]] + s[1..];
      InsertDescending(SortDescending(s[1..]), s[0])
  }

  predicate StrictlyDecreasing(s: seq<int>)
  {
    forall i, j :: 0 <= i < j < |s| ==> s[i] > s[j]
  }

  lemma {:induction false} InsertDescendingExact(s: seq<int>, x: int)
    requires StrictlyDecreasing(s) && x !in s
    ensures forall y :: y in InsertDescending(s, x) <==> y in s || y == x
    ensures StrictlyDecreasing(InsertDescending(s, x))
  {
    if s != [] && x < s[0] {
      assert StrictlyDecreasing(s[1..]);
      InsertDescendingExact(s[1..], x);
      assert s == [s[0]] + s[1..];
      var r := InsertDescending(s[1..], x);
      forall j | 0 <= j < |r| ensures s[0] > r[j] {
        assert r[j] in r;
      }
    }
  }

  /** Sorting values that are pairwise distinct gives a strictly decreasing list of
      the same values. */
  lemma {:induction false} SortDescendingExact(s: seq<int>)
    requires NoDuplicates(s)
    ensures forall y :: y in SortDescending(s) <==> y in s
    ensures StrictlyDecreasing(SortDescending(s))
  {
    if s != [] {
      assert NoDuplicates(s[1..]);
      SortDescendingExact(s[1..]);
      assert s == [s[0]] + s[1..];
      InsertDescendingExact(SortDescending(s[1..]), s[0]);
    }
  }

  /** The years offered by the year selector, newest first. */
  function Years(ts: seq<Transaction>): (r: seq<int>)
    ensures |r| <= |ts|
    ensures StrictlyDecreasing(r)
  {
    DistinctExact(YearsOf(ts));
    var distinct := Distinct(YearsOf(ts));
    SortDescendingExact(distinct);
    assert |SortDescending(distinct)| == |multiset(distinct)| == |distinct|;
    SortDescending(distinct)
  }

  /** The year selector lists every year some loaded transaction falls in, no other
      year, each once, newest first. */
  lemma YearsExact(ts: seq<Transaction>)
    ensures forall y :: y in Years(ts) <==> exists t :: t in ts && t.date.year == y
    ensures StrictlyDecreasing(Years(ts))
  {
    DistinctExact(YearsOf(ts));
    SortDescendingExact(Distinct(YearsOf(ts)));
    forall y ensures y in YearsOf(ts) <==> exists t :: t in ts && t.date.year == y {
      if y in YearsOf(ts) {
        var i :| 0 <= i < |ts| && YearsOf(ts)[i] == y;
        assert ts[i] in ts;
      }
      if t :| t in ts && t.date.year == y {
        var i :| 0 <= i < |ts| && ts[i] == t;
        assert YearsOf(ts)[i] == y;
      }
    }
  }

  // ---------------------------------------------------------------------------
  // The two pages side by side

  /** Choosing only a month and a year on the list page lists the same transactions
      as the dashboard counts for that month, most recent first, with the same totals. */
  lemma ViewAgreesWithDashboard(ts: seq<Transaction>, month0: int, year: int)
    ensures View(ts, Criteria([], AllTypes, Only(month0), Only(year)))
         == SortByDate(Dashboard.FilterByMonth(ts, month0, year))
    ensures Dashboard.TotalIncome(View(ts, Criteria([], AllTypes, Only(month0), Only(year))))
         == Dashboard.TotalIncome(Dashboard.FilterByMonth(ts, month0, year))
    ensures Dashboard.TotalExpenses(View(ts, Criteria([], AllTypes, Only(month0), Only(year))))
         == Dashboard.TotalExpenses(Dashboard.FilterByMonth(ts, month0, year))
  {
    var c := Criteria([], AllTypes, Only(month0), Only(year));
    var month := Dashboard.FilterByMonth(ts, month0, year);
    FilterExt(ts, t => Matches(c, t), t => Dashboard.InMonth(t, month0, year));
    FilterSortByDate(month, IsIncome);
    FilterSortByDate(month, IsExpense);
    SortByDatePermutation(Filter(month, IsIncome));
    SortByDatePermutation(Filter(month, IsExpense));
    Dashboard.SumAmountsPermutation(SortByDate(Filter(month, IsIncome)), Filter(month, IsIncome));
    Dashboard.SumAmountsPermutation(SortByDate(Filter(month, IsExpense)), Filter(month, IsExpense));
  }

  // ---------------------------------------------------------------------------
  // A worked example: an income of 100.00 on 5 January 2024 and an expense of 40.00
  // on 10 January 2024.

  const Salary := Transaction("1", Date(2024, 0, 5), "Salary", 10000, Income)
  const Market := Transaction("2", Date(2024, 0, 10), "Market", 4000, Expense)

  /** January 2024 lists the later expense first. */
  lemma ExampleJanuaryList()
    ensures View([Salary, Market], Criteria([], AllTypes, Only(0), Only(2024))) == [Market, Salary]
  {
    var c := Criteria([], AllTypes, Only(0), Only(2024));
    assert [Salary, Market][1..] == [Market] && [Market][1..] == [];
    assert Filter([Salary, Market], t => Matches(c, t)) == [Salary, Market];
    assert [Salary, Market][..1] == [Salary] && [Salary][..0] == [];
    assert SortByDate([Salary]) == [Salary];
    assert Later(Market.date, Salary.date);
    assert Insert([Salary], Market) == [Market, Salary];
  }

  /** January 2024 sums to 100.00 in, 40.00 out, a balance of 60.00 over 2
      transactions; February 2024 has nothing and sums to zero. */
  lemma ExampleJanuarySummary()
    ensures Dashboard.MonthlySummary([Salary, Market], 0, 2024) == Dashboard.Summary(10000, 4000, 6000, 2)
    ensures Dashboard.MonthlySummary([Salary, Market], 1, 2024) == Dashboard.Summary(0, 0, 0, 0)
  {
    assert [Salary, Market][1..] == [Market] && [Market][1..] == [];
    var inJanuary := t => Dashboard.InMonth(t, 0, 2024);
    var inFebruary := t => Dashboard.InMonth(t, 1, 2024);
    assert Filter([Market], inJanuary) == [Market];
    assert Filter([Salary, Market], inJanuary) == [Salary, Market];
    assert Filter([Market], inFebruary) == [];
    assert Filter([Salary, Market], inFebruary) == [];
    var month := Dashboard.FilterByMonth([Salary, Market], 0, 2024);
    assert month == [Salary, Market];
    assert Filter(month, IsIncome) == [Salary];
    assert Filter(month, IsExpense) == [Market];
    assert Dashboard.FilterByMonth([Salary, Market], 1, 2024) == [];
  }

  /** Searching "SAL" finds "Salary" and not "Market", whatever the case. */
  lemma ExampleSearch()
    ensures View([Salary, Market], Criteria("SAL", AllTypes, All, All)) == [Salary]
  {
    var c := Criteria("SAL", AllTypes, All, All);
    assert Matches(c, Salary) by {
      assert Lower("SAL") == "sal";
      assert Lower("Salary") == "salary";
      assert "salary"[..3] == "sal";
    }
    assert !Matches(c, Market) by {
      assert Lower("SAL") == "sal";
      assert Lower("Market") == "market";
      IncludesNeedsFirstChar("market", "sal");
    }
    assert [Salary, Market][1..] == [Market] && [Market][1..] == [];
    assert Filter([Salary, Market], t => Matches(c, t)) == [Salary];
  }
}
