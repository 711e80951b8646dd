/** The monthly summary of the dashboard page: the transactions of one calendar month,
    their income and expense totals, the balance and the count. Everything here is
    recomputed from the loaded list and the selected month and year. */
module Dashboard {
  import opened Ledger
  import opened Seqs

  /** A leftover field that older stored records may still carry. */
  datatype Category = NoCategory | Named(name: string)

  /** A record as it may come back from storage: the five transaction fields plus
      the obsolete category. */
  datatype StoredRecord = StoredRecord(
    id: string,
    date: Date,
    description: string,
    amount: int,
    kind: Kind,
    category: Category)

  /** Keeps the five transaction fields of every record, position by position, and
      drops the category. The page defines this clean-up but does not apply it to the
      loaded list, so nothing below takes its input through it. */
  function CleanOldData(records: seq<StoredRecord>): (r: seq<Transaction>)
    ensures |r| == |records|
    ensures forall i :: 0 <= i < |r| ==>
      r[i].id == records[i].id && r[i].date == records[i].date
      && r[i].description == records[i].description
      && r[i].amount == records[i].amount && r[i].kind == records[i].kind
  {
    seq(|records|, i requires 0 <= i < |records| =>
      var rec := records[i];
      Transaction(rec.id, rec.date, rec.description, rec.amount, rec.kind))
  }

  /** How a transaction is stored when it carries no category. */
  function Stored(ts: seq<Transaction>): (r: seq<StoredRecord>)
    ensures |r| == |ts|
    ensures forall i :: 0 <= i < |r| ==> r[i].category == NoCategory
  {
    seq(|ts|, i requires 0 <= i < |ts| =>
      var t := ts[i];
      StoredRecord(t.id, t.date, t.description, t.amount, t.kind, NoCategory))
  }

  /** Cleaning records that already have the current shape gives back exactly the
      transactions they hold. */
  lemma CleanOldDataRoundTrip(ts: seq<Transaction>)
    ensures CleanOldData(Stored(ts)) == ts
  {
    var r := CleanOldData(Stored(ts));
    forall i | 0 <= i < |ts| ensures r[i] == ts[i] {
    }
  }

  /** Records that differ only in their category clean to the same list. */
  lemma CleanOldDataIgnoresCategory(a: seq<StoredRecord>, b: seq<StoredRecord>)
    requires |a| == |b|
    requires forall i :: 0 <= i < |a| ==>
      a[i].(category := NoCategory) == b[i].(category := NoCategory)
    ensures CleanOldData(a) == CleanOldData(b)
  {
    var ra, rb := CleanOldData(a), CleanOldData(b);
    forall i | 0 <= i < |a| ensures ra[i] == rb[i] {
      assert a[i].(category := NoCategory) == b[i].(category := NoCategory);
    }
  }

  /** The transaction falls in the selected calendar month of the selected year. */
  predicate InMonth(t: Transaction, month0: int, year: int)
  {
    t.date.month0 == month0 && t.date.year == year
  }

  /** The transactions of the selected month, in list order. */
  function FilterByMonth(ts: seq<Transaction>, month0: int, year: int): (r: seq<Transaction>)
    ensures |r| <= |ts|
    ensures forall t :: t in r ==> t in ts && InMonth(t, month0, year)
  {
    Filter(ts, t => InMonth(t, month0, year))
  }

  /** The month filter keeps exactly the matching transactions, each as often as it
      occurs, in their original relative order. */
  lemma FilterByMonthExact(ts: seq<Transaction>, month0: int, year: int)
    ensures forall t :: t in FilterByMonth(ts, month0, year) <==> t in ts && InMonth(t, month0, year)
    ensures forall t :: multiset(FilterByMonth(ts, month0, year))[t]
                        == if InMonth(t, month0, year) then multiset(ts)[t] else 0
    ensures Subsequence(FilterByMonth(ts, month0, year), ts)
  {
    var p := t => InMonth(t, month0, year);
    forall t ensures t in Filter(ts, p) <==> t in ts && InMonth(t, month0, year) {
      FilterMembership(ts, p, t);
    }
    FilterMultiset(ts, p);
    FilterSubsequence(ts, p);
  }

  /** Sum of the amounts, as `reduce((sum, t) => sum + t.amount, 0)` computes it. With no
      negative amount, the sum is not negative either. */
  function SumAmounts(ts: seq<Transaction>): (r: int)
    ensures NonNegativeAmounts(ts) ==> r >= 0
  {
    if ts == [] then 0
    else
      assert NonNegativeAmounts(ts) ==> NonNegativeAmounts(ts[1..]);
      ts[0].amount + SumAmounts(ts[1..])
  }

  /** The income card: the amounts of the income entries added up. It ignores expense
      entries, so a list of expenses alone has no income, and a list of income entries
      alone has all its amounts as income. */
  function TotalIncome(ts: seq<Transaction>): (r: int)
    ensures (forall t :: t in ts ==> IsExpense(t)) ==> r == 0
    ensures (forall t :: t in ts ==> IsIncome(t)) ==> r == SumAmounts(ts)
    ensures NonNegativeAmounts(ts) ==> r >= 0
  {
    FilterNoneKept(ts, IsIncome);
    FilterAllKept(ts, IsIncome);
    NonNegativeFilter(ts, IsIncome);
    SumAmounts(Filter(ts, IsIncome))
  }

  /** The expense card: the amounts of the expense entries added up, ignoring income
      entries in the same way. */
  function TotalExpenses(ts: seq<Transaction>): (r: int)
    ensures (forall t :: t in ts ==> IsIncome(t)) ==> r == 0
    ensures (forall t :: t in ts ==> IsExpense(t)) ==> r == SumAmounts(ts)
    ensures NonNegativeAmounts(ts) ==> r >= 0
  {
    FilterNoneKept(ts, IsExpense);
    FilterAllKept(ts, IsExpense);
    NonNegativeFilter(ts, IsExpense);
    SumAmounts(Filter(ts, IsExpense))
  }

  lemma {:induction false} SumAmountsAppend(a: seq<Transaction>, b: seq<Transaction>)
    ensures SumAmounts(a + b) == SumAmounts(a) + SumAmounts(b)
  {
    if a == [] {
      assert a + b == b;
    } else {
      SumAmountsAppend(a[1..], b);
      assert (a + b)[1..] == a[1..] + b;
    }
  }

  /** Every transaction is either income or expense, so the two totals together are
      the sum of all amounts. */
  lemma {:induction false} TotalsPartition(ts: seq<Transaction>)
    ensures TotalIncome(ts) + TotalExpenses(ts) == SumAmounts(ts)
  {
    if ts != [] {
      TotalsPartition(ts[1..]);
      var t := ts[0];
      FilterAppend([t], ts[1..], IsIncome);
      FilterAppend([t], ts[1..], IsExpense);
      FilterSingleton(t, IsIncome);
      FilterSingleton(t, IsExpense);
      assert ts == [t] + ts[1..];
      SumAmountsAppend(Filter([t], IsIncome), Filter(ts[1..], IsIncome));
      SumAmountsAppend(Filter([t], IsExpense), Filter(ts[1..], IsExpense));
    }
  }

  /** A sub-list of a list without negative amounts has none either. */
  lemma NonNegativeFilter(ts: seq<Transaction>, p: Transaction -> bool)
    ensures NonNegativeAmounts(ts) ==> NonNegativeAmounts(Filter(ts, p))
  {
    if NonNegativeAmounts(ts) {
      var f := Filter(ts, p);
      forall i | 0 <= i < |f| ensures f[i].amount >= 0 {
        assert f[i] in f;
        var k :| 0 <= k < |ts| && ts[k] == f[i];
      }
    }
  }

  /** Removing the element at position `k` takes its amount out of the sum. */
  lemma {:induction false} SumAmountsRemove(s: seq<Transaction>, k: nat)
    requires k < |s|
    ensures SumAmounts(s) == s[k].amount + SumAmounts(s[..k] + s[k + 1..])
  {
    assert s == s[..k] + [s[k]] + s[k + 1..];
    SumAmountsAppend(s[..k] + [s[k]], s[k + 1..]);
    SumAmountsAppend(s[..k], [s[k]]);
    SumAmountsAppend(s[..k], s[k + 1..]);
  }

  /** The sum of the amounts does not depend on the order of the list. */
  lemma {:induction false} SumAmountsPermutation(a: seq<Transaction>, b: seq<Transaction>)
    requires multiset(a) == multiset(b)
    ensures SumAmounts(a) == SumAmounts(b)
    decreases |a|
  {
    if a == [] {
      assert |b| == |multiset(b)| == 0;
    } else {
      var x := a[0];
      assert x in b by {
        assert x in multiset(a);
      }
      var k :| 0 <= k < |b| && b[k] == x;
      var rest := b[..k] + b[k + 1..];
      MultisetCancel(a, b, k);
      SumAmountsPermutation(a[1..], rest);
      SumAmountsRemove(b, k);
    }
  }

  /** The four figures of the summary cards. */
  datatype Summary = Summary(totalIncome: int, totalExpenses: int, balance: int, count: nat)

  /** The summary of the selected month: income and expense totals over its
      transactions, the balance between them, and how many transactions there are. */
  function MonthlySummary(ts: seq<Transaction>, month0: int, year: int): (s: Summary)
    ensures s.totalIncome == SumAmounts(Filter(FilterByMonth(ts, month0, year), IsIncome))
    ensures s.totalExpenses == SumAmounts(Filter(FilterByMonth(ts, month0, year), IsExpense))
    ensures s.balance == s.totalIncome - s.totalExpenses
    ensures s.totalIncome + s.totalExpenses == SumAmounts(FilterByMonth(ts, month0, year))
    ensures s.count == |FilterByMonth(ts, month0, year)| <= |ts|
    ensures FilterByMonth(ts, month0, year) == [] ==> s == Summary(0, 0, 0, 0)
    ensures NonNegativeAmounts(ts) ==>
      0 <= s.totalIncome && 0 <= s.totalExpenses && s.balance <= s.totalIncome
  {
    var month := FilterByMonth(ts, month0, year);
    var income := TotalIncome(month);
    var expenses := TotalExpenses(month);
    TotalsPartition(month);
    NonNegativeFilter(ts, t => InMonth(t, month0, year));
    Summary(income, expenses, income - expenses, |month|)
  }

  /** The totals only count what they are meant to: the income total is unchanged when
      expense entries are dropped, and the other way round. */
  lemma TotalsSeparateKinds(ts: seq<Transaction>)
    ensures TotalIncome(Filter(ts, IsIncome)) == TotalIncome(ts)
    ensures TotalExpenses(Filter(ts, IsIncome)) == 0
    ensures TotalExpenses(Filter(ts, IsExpense)) == TotalExpenses(ts)
    ensures TotalIncome(Filter(ts, IsExpense)) == 0
  {
    FilterConj(ts, IsIncome, IsIncome, IsIncome);
    FilterConj(ts, IsExpense, IsExpense, IsExpense);
    var income, expense := Filter(ts, IsIncome), Filter(ts, IsExpense);
    FilterNoneKept(income, IsExpense);
    FilterNoneKept(expense, IsIncome);
  }
}
