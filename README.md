# Personal finance tracker: the transaction filter, totals and sort, in Dafny

This project models the only real data logic of a small personal-finance web app.
The app lists a user's income and expense transactions. It has two views of them:

- **Dashboard** (`app/dashboard/page.tsx`). It keeps the transactions of a selected month
  and year. It then shows the total income, the total expenses, the balance between them
  and the number of transactions.
- **Transaction list** (`app/dashboard/transactions/page.tsx`). It filters the loaded
  transactions by up to four criteria, all of which must hold:
  - a case-insensitive text search in the description;
  - the type (income or expense);
  - the month;
  - the year.

  The list page then sorts the result most recent first. It also removes a transaction by
  id after a delete, and it offers the years found in the data in its year selector.

Modules:

- `Seqs` (`seqs.dfy`) models `Array.prototype.filter` as `Filter`. It also proves the facts
  every view relies on: what is kept, how often, in what order, and how filters compose.
- `Ledger` (`ledger.dfy`) holds the transaction record. The date is already decoded into a
  (year, month counted from 0, day) triple, with chronological order `Later`. Amounts are
  integer cents.
- `Dashboard` (`dashboard.dfy`) is pure, like its source. It holds the month filter, the
  sums, the summary cards and `cleanOldData`. The page defines `cleanOldData`
  (app/dashboard/page.tsx:51-60) but never calls it: loaded data are stored as they come
  (line 82). `CleanOldData` is therefore modelled on its own, and `MonthlySummary` takes
  its input straight from the loaded list.
- `DateSort` (`datesort.dfy`) holds the "most recent first" sort. `SortByDate` is a stable
  insertion sort used as the specification. `SortInPlace` sorts an `array` in place and is
  proved equal to it. `SortByDateUnique` shows that any list that is sorted and keeps
  same-day transactions in input order is exactly `SortByDate`. So the model agrees with
  any stable sort, such as the engine's `Array.prototype.sort`, which is stable since
  ECMAScript 2019.
- `TransactionsPage` (`transactions_page.dfy`) holds the search criteria, the text
  search, the imperative filter effect `ApplyFilters`, delete by id and the year list. It
  also has a lemma tying the list page to the dashboard, and a worked example.

Two details of the code that the model keeps or adapts:

- When no criterion is active, the page sorts the loaded `transactions` array itself
  (app/dashboard/transactions/page.tsx:48, 79). `ApplyFilters` states this: with no
  criterion, the returned array *is* the input array, reordered. Otherwise the result is
  a fresh array and the input is unchanged. `ViewOfSorted` shows that this reordering
  never changes a later view.
- The code adds JavaScript numbers. The model uses integer cents (see "Left out").

## Model

| member | source | states |
|---|---|---|
| `Seqs.Filter` | app/dashboard/page.tsx:94-97 | a filter result is never longer than its input and holds only input elements that pass the predicate |
| `Dashboard.CleanOldData` | app/dashboard/page.tsx:51-60 | the cleaned list has the input's length and, position by position, the same id, date, description, amount and type |
| `Dashboard.CleanOldDataRoundTrip` | app/dashboard/page.tsx:51-60 | cleaning records that already have the current shape returns exactly the transactions they hold |
| `Dashboard.CleanOldDataIgnoresCategory` | app/dashboard/page.tsx:51-60 | records that differ only in the obsolete category clean to the same list |
| `Dashboard.FilterByMonth` | app/dashboard/page.tsx:94-97 | every kept transaction is from an input element and falls in the selected month and year; the result is no longer than the input |
| `Dashboard.FilterByMonthExact` | app/dashboard/page.tsx:94-97 | a transaction is kept iff it is loaded and in the selected month and year; each is kept as often as it occurs; relative order is preserved |
| `Dashboard.SumAmounts` | app/dashboard/page.tsx:100-102 | the `reduce` that adds up amounts; its contract: with no negative amount the sum is not negative. `SumAmountsPermutation` and `TotalsPartition` complete it |
| `Dashboard.TotalIncome` | app/dashboard/page.tsx:100 | the income card: the income entries' amounts added up; its contract: zero for a list of expenses only, the whole sum for a list of income entries only, non-negative when no amount is negative. `TotalsPartition` and `TotalsSeparateKinds` complete it |
| `Dashboard.TotalExpenses` | app/dashboard/page.tsx:102 | the expense card, symmetric to `TotalIncome`: zero for income only, the whole sum for expenses only, non-negative when no amount is negative |
| `Dashboard.TotalsPartition` | app/dashboard/page.tsx:100-102 | every transaction is income or expense, so total income plus total expenses equals the sum of all amounts |
| `Dashboard.TotalsSeparateKinds` | app/dashboard/page.tsx:100-102 | the income total counts only income entries and the expense total only expense entries |
| `Dashboard.SumAmountsPermutation` | app/dashboard/page.tsx:100-102 | a sum does not depend on the order of the list |
| `Dashboard.MonthlySummary` | app/dashboard/page.tsx:94-104 | total income = the sum over the month's income entries; total expenses = the sum over the month's expense entries; balance = income − expenses; income + expenses = the sum of the month's amounts; count = the number of the month's transactions (the card at line 263), at most the number loaded; an empty month gives all zeros; with non-negative amounts both totals are ≥ 0 and the balance is at most the income |
| `Ledger.Later` | app/dashboard/transactions/page.tsx:79 | the comparator's "strictly later day" on decoded dates; its contract: never the same day and never an earlier year. `LaterTrichotomy` completes it |
| `Ledger.LaterTrichotomy` | app/dashboard/transactions/page.tsx:79 | two dates are in exactly one of three relations: later, earlier or the same day; the sort's comparison needs this |
| `DateSort.Insert` | app/dashboard/transactions/page.tsx:79 | one step of the stable sort; its own contract only gives the length (one more than before). `InsertMultiset`, `InsertSorted` and `InsertAt` complete it |
| `DateSort.SortByDate` | app/dashboard/transactions/page.tsx:79 | the stable most-recent-first sort; its own contract only keeps the length. `SortByDateSorted`, `SortByDatePermutation`, `SortByDateStable` and `SortByDateUnique` complete it |
| `DateSort.SortByDateSorted` | app/dashboard/transactions/page.tsx:79 | the sorted list is ordered by date, most recent first |
| `DateSort.SortByDatePermutation` | app/dashboard/transactions/page.tsx:79 | the sort adds and drops nothing: the result is a permutation of its input |
| `DateSort.SortByDateMembers` | app/dashboard/transactions/page.tsx:79 | the sorted list holds exactly the elements of its input |
| `DateSort.InsertMultiset` | app/dashboard/transactions/page.tsx:79 | one insertion step adds exactly the inserted transaction |
| `DateSort.InsertSorted` | app/dashboard/transactions/page.tsx:79 | one insertion step keeps a most-recent-first list sorted |
| `DateSort.SortByDateStable` | app/dashboard/transactions/page.tsx:79 | stability: transactions on the same day keep their input order |
| `DateSort.SortByDateUnique` | app/dashboard/transactions/page.tsx:79 | any most-recent-first list that keeps every day's transactions in input order equals `SortByDate` of the input, so every stable sort gives the model's result |
| `DateSort.FilterSortByDate` | app/dashboard/transactions/page.tsx:79 | filtering the sorted list is sorting the filtered list |
| `DateSort.SortByDateIdempotent` | app/dashboard/transactions/page.tsx:79 | sorting an already sorted list changes nothing |
| `DateSort.InsertAt` | app/dashboard/transactions/page.tsx:79 | insertion places the new transaction behind the last entry it is not later than and ahead of the run of earlier entries |
| `DateSort.InsertInPlace` | app/dashboard/transactions/page.tsx:79 | shifting later entries right and placing the new one puts the prefix into the insertion result; later cells are untouched |
| `DateSort.SortInPlace` | app/dashboard/transactions/page.tsx:79 | after the in-place sort the array holds `SortByDate` of its old contents |
| `TransactionsPage.Lower` | app/dashboard/transactions/page.tsx:53 | `toLowerCase`: the same length, each character lower-cased on its own (ASCII letters only, see "Left out") |
| `TransactionsPage.LowerIdempotent` | app/dashboard/transactions/page.tsx:53 | lower-casing twice is lower-casing once, and no capital letter A to Z is left |
| `TransactionsPage.Includes` | app/dashboard/transactions/page.tsx:53 | `includes` as a scan from the left; its contract: a found needle is never longer than the text. `IncludesIff` completes it |
| `TransactionsPage.IncludesIff` | app/dashboard/transactions/page.tsx:53 | `includes` holds iff the needle occurs at some position of the text |
| `TransactionsPage.IncludesEmpty` | app/dashboard/transactions/page.tsx:51 | the empty term is found in every text, so skipping the text filter for an empty search box changes nothing |
| `TransactionsPage.MatchesTextIff` | app/dashboard/transactions/page.tsx:51-55 | the text criterion holds iff the search box is empty or the lower-cased term occurs in the lower-cased description |
| `TransactionsPage.SearchIgnoresCase` | app/dashboard/transactions/page.tsx:51-55 | lower-casing the term or the description does not change whether a transaction matches |
| `TransactionsPage.Matches` | app/dashboard/transactions/page.tsx:51-76 | all four criteria at once; its contract: with no criterion active every transaction matches. `MatchesTextIff` and `ViewExact` complete it |
| `TransactionsPage.View` | app/dashboard/transactions/page.tsx:46-81 | what the page lists; its contract: most recent first, no longer than the loaded list, only loaded transactions that match. `ViewExact` adds the converse and the multiplicities |
| `TransactionsPage.ViewExact` | app/dashboard/transactions/page.tsx:46-81 | a transaction is listed iff it is loaded and passes every active criterion (text, type, month, year); each is listed as often as it is loaded; the list is most recent first and no longer than the loaded list |
| `TransactionsPage.ViewStableTies` | app/dashboard/transactions/page.tsx:79 | among the listed transactions, those on the same day keep their loaded order |
| `TransactionsPage.ViewNoCriteria` | app/dashboard/transactions/page.tsx:48-79 | with an empty search and "all" in every selector, the list is the whole loaded list, reordered by date only |
| `TransactionsPage.ViewNoTextMatch` | app/dashboard/transactions/page.tsx:51-55 | a search term found in no description yields an empty list, whatever the other selectors say |
| `TransactionsPage.SelectMatches` | app/dashboard/transactions/page.tsx:48-77 | each active criterion narrows the list in turn, and together they keep exactly the transactions that pass all of them, in loaded order; with no active criterion the loaded array itself is returned, otherwise a fresh one |
| `TransactionsPage.ApplyFilters` | app/dashboard/transactions/page.tsx:46-82 | the four conditional filters and the in-place sort produce exactly the view of the old list; with no active criterion the result is the loaded array itself, otherwise a fresh array and the loaded one is unchanged |
| `TransactionsPage.RemoveById` | app/dashboard/transactions/page.tsx:88-89 | after deletion no entry has the id, and every remaining entry was in the list before |
| `TransactionsPage.RemoveByIdExact` | app/dashboard/transactions/page.tsx:88-89 | exactly the entries with that id are removed; all others stay, as often as before and in their order; the length drops by the number removed; an absent id changes nothing |
| `TransactionsPage.RemoveByIdCommutesWithView` | app/dashboard/transactions/page.tsx:84-93 | removing the id from the listed view gives the view of the list with the id removed, so the page's two updates agree |
| `TransactionsPage.ViewOfSorted` | app/dashboard/transactions/page.tsx:48-79 | the view of a list the page has sorted in place equals the view of the unsorted list |
| `TransactionsPage.RerunAfterDelete` | app/dashboard/transactions/page.tsx:84-93 | after a delete, running the filter effect again on the new loaded list lists what the page already shows; this holds whether that list was left as loaded or had been sorted in place |
| `TransactionsPage.Distinct` | app/dashboard/transactions/page.tsx:110 | `Array.from(new Set(...))`; its contract: no longer than its input, and only input values. `DistinctExact` completes it |
| `TransactionsPage.DistinctExact` | app/dashboard/transactions/page.tsx:110 | the de-duplicated years are those of the input, each once |
| `TransactionsPage.InsertDescendingExact` | app/dashboard/transactions/page.tsx:110 | inserting a new year into a strictly decreasing list keeps it strictly decreasing and adds just that year |
| `TransactionsPage.InsertDescending` | app/dashboard/transactions/page.tsx:110 | one step of the numeric sort: it adds exactly the inserted year |
| `TransactionsPage.SortDescending` | app/dashboard/transactions/page.tsx:110 | `sort((a, b) => b - a)`: the result is a permutation of its input. `SortDescendingExact` adds the order |
| `TransactionsPage.SortDescendingExact` | app/dashboard/transactions/page.tsx:110 | sorting distinct years gives a strictly decreasing list of the same years |
| `TransactionsPage.Years` | app/dashboard/transactions/page.tsx:110 | the year selector's list: strictly decreasing, so each year once, and never longer than the loaded list. `YearsExact` adds which years |
| `TransactionsPage.YearsExact` | app/dashboard/transactions/page.tsx:110 | the year list holds a year iff some loaded transaction falls in it; it is strictly decreasing, so it has no duplicates |
| `TransactionsPage.ViewAgreesWithDashboard` | app/dashboard/transactions/page.tsx:63-76 | choosing only a month and a year on the list page lists the dashboard's transactions for that month, most recent first, with the same income and expense totals |
| `TransactionsPage.ExampleJanuaryList` | app/dashboard/transactions/page.tsx:46-82 | for an income on 5 Jan 2024 and an expense on 10 Jan 2024, January 2024 lists the expense first |
| `TransactionsPage.ExampleJanuarySummary` | app/dashboard/page.tsx:94-104 | the same data give 100.00 in, 40.00 out, a balance of 60.00 and a count of 2 for January 2024, and all zeros for February 2024 |
| `TransactionsPage.ExampleSearch` | app/dashboard/transactions/page.tsx:51-55 | searching "SAL" lists "Salary" and not "Market" |

## Left out

- Storage I/O is left out: loading with `getTransactions`, `deleteTransaction`, and the
  confirm dialog before a delete. The model starts from the loaded list. A delete is
  modelled only on its success path. On failure the page changes nothing.
- Session checks in `localStorage`, routing, logout, the theme switch, resize listeners,
  charts, chart data and the greeting are not modelled. The same goes for the login page,
  the add and edit forms and `lib/transactionsApi.ts`. They are UI glue or I/O.
- React effect scheduling is not modelled: the filter effect re-runs when its inputs
  change. `RerunAfterDelete` shows that re-running it after a delete gives what the page
  already shows. This holds even when an earlier run had sorted the loaded array in place
  (through `ViewOfSorted` and `SortByDateIdempotent`).
- Dates are left as text in the source. The page parses `"YYYY-MM-DD"` with `new Date`,
  which reads it as UTC midnight. `getMonth` and `getFullYear` then read local time. West
  of UTC, the first day of a month therefore counts toward the previous month. The model
  takes the date as an already-decoded (year, month, day) triple and does not reproduce
  this shift.
- Unparseable dates are not modelled. Their `getTime()` is NaN, which makes the
  comparator's result unusable.
- `Ledger.Later` assumes valid month and day ranges. Only then is field-by-field order
  the same as the order of `getTime()`.
- `TransactionsPage.Lower`: lower-cases only the ASCII letters A to Z. The engine's
  `toLowerCase` follows the full Unicode case mapping, including accented letters.
- `Dashboard.SumAmounts`: adds exact integer cents. The source adds JavaScript
  floating-point numbers, which can drift in the last digit.
- Amounts read with `Number.parseFloat` in the forms are not modelled. Amounts may be any
  integer. Non-negativity is only the premise of the sign clauses.
- `Number.parseInt` of the month and year options is not modelled. `Selector` holds the
  already-parsed number. The dashboard's initial month and year come from the clock, so
  they are parameters here.
- Locale formatting of amounts and dates (`toLocaleString`, `toLocaleDateString`) is left
  out.
