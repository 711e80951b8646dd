/** Ordering the transaction list by date, most recent first. The list page does this
    with the engine's `Array.prototype.sort`, which is a stable sort: transactions on the
    same day keep the order they had. */
module DateSort {
  import opened Ledger
  import opened Seqs

  /** Most recent first: no transaction is later than one that comes before it. */
  predicate SortedByDateDesc(s: seq<Transaction>)
  {
    forall i, j :: 0 <= i < j < |s| ==> !Later(s[j].date, s[i].date)
  }

  /** `s` with `x` placed right behind the last element that is not earlier than `x`. */
  function Insert(s: seq<Transaction>, x: Transaction): (r: seq<Transaction>)
    ensures |r| == |s| + 1
  {
    if s == [] || !Later(x.date, s[|s| - 1].date) then s + [x]
    else Insert(s[..|s| - 1], x) + [s[|s| - 1]]
  }

  /** The stable date-descending ordering of `s`: each element in turn is inserted
      behind everything already placed that is on the same day or later. */
  function SortByDate(s: seq<Transaction>): (r: seq<Transaction>)
    ensures |r| == |s|
  {
    if s == [] then []
    else Insert(SortByDate(s[..|s| - 1]), s[|s| - 1])
  }

  /** Insertion adds `x` and keeps everything else. */
  lemma {:induction false} InsertMultiset(s: seq<Transaction>, x: Transaction)
    ensures multiset(Insert(s, x)) == multiset(s) + multiset{x}
  {
    if s != [] && Later(x.date, s[|s| - 1].date) {
      InsertMultiset(s[..|s| - 1], x);
      assert s == s[..|s| - 1] + [s[|s| - 1]];
    }
  }

  /** The sort adds nothing and drops nothing: its result is a permutation of its input. */
  lemma {:induction false} SortByDatePermutation(s: seq<Transaction>)
    ensures multiset(SortByDate(s)) == multiset(s)
  {
    if s != [] {
      SortByDatePermutation(s[..|s| - 1]);
      InsertMultiset(SortByDate(s[..|s| - 1]), s[|s| - 1]);
      assert s == s[..|s| - 1] + [s[|s| - 1]];
    }
  }

  /** The sort lists exactly the elements of its input. */
  lemma SortByDateMembers(s: seq<Transaction>)
    ensures forall t :: t in SortByDate(s) <==> t in s
  {
    SortByDatePermutation(s);
    forall t ensures t in SortByDate(s) <==> t in s {
      assert t in SortByDate(s) <==> t in multiset(SortByDate(s));
      assert t in s <==> t in multiset(s);
    }
  }

  /** Inserting into a sorted list keeps it sorted. */
  lemma {:induction false} InsertSorted(s: seq<Transaction>, x: Transaction)
    requires SortedByDateDesc(s)
    ensures SortedByDateDesc(Insert(s, x))
  {
    if s == [] || !Later(x.date, s[|s| - 1].date) {
      var r := s + [x];
      forall i, j | 0 <= i < j < |r| ensures !Later(r[j].date, r[i].date) {
        if j == |s| {
          assert !Later(x.date, s[|s| - 1].date);
          assert i < |s| - 1 ==> !Later(s[|s| - 1].date, s[i].date);
        }
      }
    } else {
      var init, last := s[..|s| - 1], s[|s| - 1];
      assert SortedByDateDesc(init);
      InsertSorted(init, x);
      var front := Insert(init, x);
      var r := front + [last];
      forall i, j | 0 <= i < j < |r| ensures !Later(r[j].date, r[i].date) {
        if j == |front| {
          var y := front[i];
          InsertMultiset(init, x);
          assert y in multiset(front);
          assert y in multiset(init) || y == x;
          if y in multiset(init) {
            assert y in init;
            var k :| 0 <= k < |init| && init[k] == y;
            assert s[k] == y;
          }
        }
      }
    }
  }

  /** The sort yields a list ordered by date, most recent first. */
  lemma {:induction false} SortByDateSorted(s: seq<Transaction>)
    ensures SortedByDateDesc(SortByDate(s))
  {
    if s != [] {
      SortByDateSorted(s[..|s| - 1]);
      InsertSorted(SortByDate(s[..|s| - 1]), s[|s| - 1]);
    }
  }

  /** In a sorted list, nothing is earlier than the last element. */
  lemma SortedLastIsEarliest(s: seq<Transaction>, x: Transaction)
    requires SortedByDateDesc(s) && s != [] && !Later(x.date, s[|s| - 1].date)
    ensures forall y :: y in s ==> !Later(x.date, y.date)
  {
    forall y | y in s ensures !Later(x.date, y.date) {
      var k :| 0 <= k < |s| && s[k] == y;
      assert k < |s| - 1 ==> !Later(s[|s| - 1].date, s[k].date);
    }
  }

  /** An element that is later than none of `s` goes to the end. */
  lemma InsertAtEnd(s: seq<Transaction>, x: Transaction)
    requires forall y :: y in s ==> !Later(x.date, y.date)
    ensures Insert(s, x) == s + [x]
  {
    if s != [] {
      assert s[|s| - 1] in s;
    }
  }

  /** Inserting and then filtering is filtering and then inserting (if `x` is kept). */
  lemma {:induction false} FilterInsert(s: seq<Transaction>, x: Transaction, p: Transaction -> bool)
    requires SortedByDateDesc(s)
    ensures Filter(Insert(s, x), p) == if p(x) then Insert(Filter(s, p), x) else Filter(s, p)
  {
    if s == [] || !Later(x.date, s[|s| - 1].date) {
      FilterInsertAtEnd(s, x, p);
    } else {
      var init, last := s[..|s| - 1], s[|s| - 1];
      assert s == init + [last];
      assert SortedByDateDesc(init);
      FilterInsert(init, x, p);
      FilterInsertBehind(init, last, x, p);
    }
  }

  lemma FilterInsertAtEnd(s: seq<Transaction>, x: Transaction, p: Transaction -> bool)
    requires SortedByDateDesc(s)
    requires s == [] || !Later(x.date, s[|s| - 1].date)
    ensures Filter(Insert(s, x), p) == if p(x) then Insert(Filter(s, p), x) else Filter(s, p)
  {
    FilterSingleton(x, p);
    assert Insert(s, x) == s + [x];
    FilterAppend(s, [x], p);
    if p(x) {
      var fs := Filter(s, p);
      if s != [] {
        SortedLastIsEarliest(s, x);
      }
      InsertAtEnd(fs, x);
    }
  }

  /** An element later than the last one goes in front of it. */
  lemma InsertBehind(init: seq<Transaction>, last: Transaction, x: Transaction)
    requires Later(x.date, last.date)
    ensures Insert(init + [last], x) == Insert(init, x) + [last]
  {
    var s := init + [last];
    assert s[..|s| - 1] == init;
  }

  lemma FilterInsertBehind(init: seq<Transaction>, last: Transaction, x: Transaction, p: Transaction -> bool)
    requires Later(x.date, last.date)
    requires Filter(Insert(init, x), p) == if p(x) then Insert(Filter(init, p), x) else Filter(init, p)
    ensures Filter(Insert(init + [last], x), p)
         == if p(x) then Insert(Filter(init + [last], p), x) else Filter(init + [last], p)
  {
    InsertBehind(init, last, x);
    FilterAppend(Insert(init, x), [last], p);
    FilterAppend(init, [last], p);
    FilterSingleton(last, p);
    var fi := Filter(init, p);
    if p(last) {
      assert Filter(init + [last], p) == fi + [last];
      assert Filter(Insert(init + [last], x), p) == Filter(Insert(init, x), p) + [last];
      if p(x) {
        InsertBehind(fi, last, x);
      }
    } else {
      assert Filter(init + [last], p) == fi;
      assert Filter(Insert(init + [last], x), p) == Filter(Insert(init, x), p);
    }
  }

  /** Sorting one more element at the end is inserting it into the sorted rest. */
  lemma SortByDateSnoc(init: seq<Transaction>, last: Transaction)
    ensures SortByDate(init + [last]) == Insert(SortByDate(init), last)
  {
    var s := init + [last];
    assert s[..|s| - 1] == init;
  }

  /** Filtering commutes with the stable sort: sorting a sub-list gives the same order
      as that sub-list has inside the sorted whole. */
  lemma {:induction false} FilterSortByDate(s: seq<Transaction>, p: Transaction -> bool)
    ensures Filter(SortByDate(s), p) == SortByDate(Filter(s, p))
  {
    if s != [] {
      var init, last := s[..|s| - 1], s[|s| - 1];
      assert s == init + [last];
      FilterSortByDate(init, p);
      SortByDateSorted(init);
      SortByDateSnoc(init, last);
      FilterInsert(SortByDate(init), last, p);
      FilterAppend(init, [last], p);
      FilterSingleton(last, p);
      var fi := Filter(init, p);
      if p(last) {
        assert Filter(s, p) == fi + [last];
        SortByDateSnoc(fi, last);
      } else {
        assert Filter(s, p) == fi;
      }
    }
  }

  /** A list whose transactions all fall on one day is left as it is. */
  lemma {:induction false} SortByDateSameDay(s: seq<Transaction>, d: Date)
    requires forall i :: 0 <= i < |s| ==> s[i].date == d
    ensures SortByDate(s) == s
  {
    if s != [] {
      var init := s[..|s| - 1];
      SortByDateSameDay(init, d);
      assert s == init + [s[|s| - 1]];
    }
  }

  predicate OnDay(d: Date, t: Transaction)
  {
    t.date == d
  }

  /** The transactions of `s` that fall on day `d`, in their order in `s`. */
  function DayRun(s: seq<Transaction>, d: Date): (r: seq<Transaction>)
    ensures forall t :: t in r ==> t in s && t.date == d
  {
    Filter(s, t => OnDay(d, t))
  }

  /** Stability: for every day, the transactions on that day appear in the sorted list
      in exactly the order they had in the input. */
  lemma SortByDateStable(s: seq<Transaction>, d: Date)
    ensures DayRun(SortByDate(s), d) == DayRun(s, d)
  {
    var onDay := t => OnDay(d, t);
    FilterSortByDate(s, onDay);
    var f := Filter(s, onDay);
    forall i | 0 <= i < |f| ensures f[i].date == d {
      assert f[i] in f;
    }
    SortByDateSameDay(f, d);
  }

  /** Two lists that have the same transactions on every day are both empty or both not. */
  lemma SameDayRunsBothEmpty(r: seq<Transaction>, q: seq<Transaction>)
    requires forall d :: DayRun(r, d) == DayRun(q, d)
    ensures r == [] <==> q == []
  {
    if q != [] {
      FilterMembership(q, t => OnDay(q[0].date, t), q[0]);
      assert DayRun(r, q[0].date) != [];
    }
    if r != [] {
      FilterMembership(r, t => OnDay(r[0].date, t), r[0]);
      assert DayRun(q, r[0].date) != [];
    }
  }

  /** In a sorted list, no transaction on day `d` is later than the first one. */
  lemma FirstIsLatest(r: seq<Transaction>, q: seq<Transaction>)
    requires SortedByDateDesc(r) && r != [] && q != []
    requires DayRun(r, q[0].date) == DayRun(q, q[0].date)
    ensures !Later(q[0].date, r[0].date)
  {
    var d := q[0].date;
    FilterMembership(q, t => OnDay(d, t), q[0]);
    assert q[0] in DayRun(r, d);
    var k :| 0 <= k < |r| && r[k] == q[0];
    assert k > 0 ==> !Later(r[k].date, r[0].date);
  }

  /** Two lists ordered most recent first that have the same transactions, in the same
      order, on every day are the same list. */
  lemma {:induction false} SortedSameDayRunsEqual(r: seq<Transaction>, q: seq<Transaction>)
    requires SortedByDateDesc(r) && SortedByDateDesc(q)
    requires forall d :: DayRun(r, d) == DayRun(q, d)
    ensures r == q
    decreases |r|
  {
    SameDayRunsBothEmpty(r, q);
    if r != [] {
      FirstIsLatest(r, q);
      FirstIsLatest(q, r);
      LaterTrichotomy(r[0].date, q[0].date);
      var d0 := r[0].date;
      forall d ensures DayRun(r[1..], d) == DayRun(q[1..], d) {
        var onDay := t => OnDay(d, t);
        assert r == [r[0]] + r[1..];
        assert q == [q[0]] + q[1..];
        FilterAppend([r[0]], r[1..], onDay);
        FilterAppend([q[0]], q[1..], onDay);
        FilterSingleton(r[0], onDay);
        FilterSingleton(q[0], onDay);
        assert DayRun(r, d) == Filter([r[0]], onDay) + DayRun(r[1..], d);
        assert DayRun(q, d) == Filter([q[0]], onDay) + DayRun(q[1..], d);
        if d == d0 {
          assert DayRun(r, d) == [r[0]] + DayRun(r[1..], d);
          assert DayRun(q, d) == [q[0]] + DayRun(q[1..], d);
          assert DayRun(r[1..], d) == DayRun(r, d)[1..];
          assert DayRun(q[1..], d) == DayRun(q, d)[1..];
        } else {
          assert DayRun(r, d) == DayRun(r[1..], d);
          assert DayRun(q, d) == DayRun(q[1..], d);
        }
      }
      assert DayRun(r, d0)[0] == r[0] && DayRun(q, d0)[0] == q[0] by {
        FilterAppend([r[0]], r[1..], t => OnDay(d0, t));
        FilterAppend([q[0]], q[1..], t => OnDay(d0, t));
        assert r == [r[0]] + r[1..];
        assert q == [q[0]] + q[1..];
      }
      assert SortedByDateDesc(r[1..]) && SortedByDateDesc(q[1..]);
      SortedSameDayRunsEqual(r[1..], q[1..]);
      assert r == [r[0]] + r[1..];
      assert q == [q[0]] + q[1..];
    }
  }

  /** The sort is determined by what the engine's sort promises: any list ordered
      most recent first that keeps every day's transactions in input order is exactly
      `SortByDate` of the input. */
  lemma SortByDateUnique(s: seq<Transaction>, r: seq<Transaction>)
    requires SortedByDateDesc(r)
    requires forall d :: DayRun(r, d) == DayRun(s, d)
    ensures r == SortByDate(s)
  {
    SortByDateSorted(s);
    forall d ensures DayRun(r, d) == DayRun(SortByDate(s), d) {
      SortByDateStable(s, d);
    }
    SortedSameDayRunsEqual(r, SortByDate(s));
  }

  /** Sorting a list that is already sorted changes nothing, so a list the page has
      sorted in place sorts back to the same order. */
  lemma SortByDateIdempotent(s: seq<Transaction>)
    ensures SortByDate(SortByDate(s)) == SortByDate(s)
  {
    SortByDateSorted(s);
    SortByDateUnique(SortByDate(s), SortByDate(s));
  }

  /** Where insertion puts `x`: behind the last element it is not later than, ahead
      of the run of elements it is later than. */
  lemma {:induction false} InsertAt(s: seq<Transaction>, j: nat, x: Transaction)
    requires j <= |s| && (j == 0 || !Later(x.date, s[j - 1].date))
    requires forall k :: j <= k < |s| ==> Later(x.date, s[k].date)
    ensures Insert(s, x) == s[..j] + [x] + s[j..]
    decreases |s|
  {
    if j == |s| {
      assert s[..j] == s && s[j..] == [];
    } else {
      var init, last := s[..|s| - 1], s[|s| - 1];
      assert Insert(s, x) == Insert(init, x) + [last];
      InsertAt(init, j, x);
      assert init[..j] == s[..j];
      assert init[j..] + [last] == s[j..];
    }
  }

  /** What the shifting loop leaves behind: `s` with `x` placed at position `j`. */
  lemma ShiftedInsert(r: seq<Transaction>, s: seq<Transaction>, j: nat, x: Transaction)
    requires j <= |s| && |r| == |s| + 1
    requires forall k :: 0 <= k < j ==> r[k] == s[k]
    requires r[j] == x
    requires forall k :: j < k < |r| ==> r[k] == s[k - 1]
    ensures r == s[..j] + [x] + s[j..]
  {
    var t := s[..j] + [x] + s[j..];
    forall k | 0 <= k < |r| ensures r[k] == t[k] {
      if k < j {
        assert t[k] == s[k];
      } else if j < k {
        assert t[k] == s[k - 1];
      }
    }
  }

  /** Moves `a[i]` into the sorted prefix `a[..i]`: the later transactions before it
      shift one place right, and it lands behind the first one not earlier than it. */
  method InsertInPlace(a: array<Transaction>, i: nat)
    requires i < a.Length
    modifies a
    ensures a[..i + 1] == Insert(old(a[..i]), old(a[i]))
    ensures forall k :: i < k < a.Length ==> a[k] == old(a[k])
  {
    ghost var sorted := a[..i];
    var x := a[i];
    var j := i;
    while j > 0 && Later(x.date, a[j - 1].date)
      invariant 0 <= j <= i
      invariant forall k :: 0 <= k < j ==> a[k] == sorted[k]
      invariant forall k :: j < k <= i ==> a[k] == sorted[k - 1]
      invariant forall k :: i < k < a.Length ==> a[k] == old(a[k])
      invariant forall k :: j <= k < i ==> Later(x.date, sorted[k].date)
    {
      a[j] := a[j - 1];
      j := j - 1;
    }
    InsertAt(sorted, j, x);
    a[j] := x;
    ShiftedInsert(a[..i + 1], sorted, j, x);
  }

  /** The in-place sort of the list page: afterwards the array holds exactly the
      stable date-descending ordering of what it held before. */
  method SortInPlace(a: array<Transaction>)
    modifies a
    ensures a[..] == SortByDate(old(a[..]))
  {
    ghost var orig := a[..];
    var i := 0;
    while i < a.Length
      invariant 0 <= i <= a.Length
      invariant a[..i] == SortByDate(orig[..i])
      invariant forall k :: i <= k < a.Length ==> a[k] == orig[k]
    {
      InsertInPlace(a, i);
      assert orig[..i + 1] == orig[..i] + [orig[i]];
      SortByDateSnoc(orig[..i], orig[i]);
      i := i + 1;
    }
    assert orig[..a.Length] == orig;
    assert a[..a.Length] == a[..];
  }
}
