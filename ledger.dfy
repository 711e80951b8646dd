/** The transaction record shared by the dashboard and the transaction list. */
module Ledger {

  /** The `type` field: a transaction is either money in or money out. */
  datatype Kind = Income | Expense

  /** A calendar date already decoded from its `"YYYY-MM-DD"` text:
      `month0` counts from 0 (January) to 11, as `Date.getMonth` does. */
  datatype Date = Date(year: int, month0: int, day: int)

  /** One row of the ledger. `amount` is in cents; its sign never carries meaning,
      the `kind` does. */
  datatype Transaction = Transaction(
    id: string,
    date: Date,
    description: string,
    amount: int,
    kind: Kind)

  /** `a` is a strictly later calendar day than `b`: never the same day, and never in
      an earlier year. */
  predicate Later(a: Date, b: Date)
    ensures Later(a, b) ==> a != b && a.year >= b.year
  {
    a.year > b.year
    || (a.year == b.year && a.month0 > b.month0)
    || (a.year == b.year && a.month0 == b.month0 && a.day > b.day)
  }

  /** Chronological order of dates is a strict total order: exactly one of
      "later", "earlier" and "same day" holds. */
  lemma LaterTrichotomy(a: Date, b: Date)
    ensures !(Later(a, b) && Later(b, a))
    ensures !Later(a, b) && !Later(b, a) <==> a == b
  {
  }

  /** The transaction adds to the balance. */
  predicate IsIncome(t: Transaction)
  {
    t.kind == Income
  }

  /** The transaction subtracts from the balance. */
  predicate IsExpense(t: Transaction)
  {
    t.kind == Expense
  }

  /** Every amount in the list is non-negative, as the entry form intends. */
  predicate NonNegativeAmounts(ts: seq<Transaction>)
  {
    forall i :: 0 <= i < |ts| ==> ts[i].amount >= 0
  }
}
