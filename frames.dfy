/**
 * The table operations applied to the collected records: building the frame and
 * dropping rows with a missing value (`pd.DataFrame(results).dropna()`), sorting by
 * the one-week column in place (`sort_values('1W', ascending=False, inplace=True)`),
 * and the one-month threshold filter (`df[df["1M"] * 100 > threshold]`).
 */
module Frames {
  import opened Wrappers
  import opened Momentum

  /** A row that survived `dropna()`: every lookback is present. */
  datatype Row = Row(ticker: string, hour: real, week: real, month: real, year: real)

  /** The row a record becomes, or `None` when `dropna()` removes it. */
  function Complete(rec: Record): (r: Option<Row>)
    ensures r.Some? <==> rec.hour.Some? && rec.week.Some? && rec.month.Some? && rec.year.Some?
    ensures r.Some? ==>
      && r.value.ticker == rec.ticker && r.value.hour == rec.hour.value
      && r.value.week == rec.week.value && r.value.month == rec.month.value
      && r.value.year == rec.year.value
  {
    if rec.hour.Some? && rec.week.Some? && rec.month.Some? && rec.year.Some?
    then Some(Row(rec.ticker, rec.hour.value, rec.week.value, rec.month.value, rec.year.value))
    else None
  }

  /** `dropna()`: the complete records, as rows, in their original order. */
  function DropMissing(recs: seq<Record>): (rows: seq<Row>)
    ensures |rows| <= |recs|
  {
    if recs == [] then []
    else
      DropMissing(recs[..|recs| - 1])
      + (match Complete(recs[|recs| - 1]) case Some(row) => [row] case None => [])
  }

  /** A row is in the frame exactly when some record completes to it. */
  lemma {:induction false} DropMissingMembers(recs: seq<Record>, row: Row)
    ensures row in DropMissing(recs) <==> exists i :: 0 <= i < |recs| && Complete(recs[i]) == Some(row)
  {
    if recs != [] {
      var init, last := recs[..|recs| - 1], recs[|recs| - 1];
      var tail := match Complete(last) case Some(r) => [r] case None => [];
      assert DropMissing(recs) == DropMissing(init) + tail;
      DropMissingMembers(init, row);
      if exists i :: 0 <= i < |recs| && Complete(recs[i]) == Some(row) {
        var i :| 0 <= i < |recs| && Complete(recs[i]) == Some(row);
        if i < |init| {
          assert init[i] == recs[i];
        }
      }
      if row in DropMissing(init) {
        var i :| 0 <= i < |init| && Complete(init[i]) == Some(row);
        assert recs[i] == init[i];
      }
    }
  }

  /** The positions of the complete records: increasing, and exactly the records `dropna()` keeps. */
  function CompleteIndices(recs: seq<Record>): (idx: seq<nat>)
    ensures forall k :: 0 <= k < |idx| ==> idx[k] < |recs|
    ensures forall k, l :: 0 <= k < l < |idx| ==> idx[k] < idx[l]
    ensures forall i :: 0 <= i < |recs| ==> (i in idx <==> Complete(recs[i]).Some?)
  {
    if recs == [] then []
    else
      var init := recs[..|recs| - 1];
      assert forall i :: 0 <= i < |init| ==> init[i] == recs[i];
      CompleteIndices(init)
      + (if Complete(recs[|recs| - 1]).Some? then [|recs| - 1] else [])
  }

  /**
   * `dropna()` keeps each complete record exactly once and in order: the frame is the
   * records read at `CompleteIndices`, each turned into its row. Two records that
   * complete to the same row (say, from two scraped symbols that normalise alike) give
   * two rows.
   */
  lemma {:induction false} DropMissingKeepsOrder(recs: seq<Record>)
    ensures var idx, rows := CompleteIndices(recs), DropMissing(recs);
      |idx| == |rows| && forall k :: 0 <= k < |idx| ==> Complete(recs[idx[k]]) == Some(rows[k])
  {
    if recs != [] {
      var init, last := recs[..|recs| - 1], recs[|recs| - 1];
      DropMissingKeepsOrder(init);
      var idx0, rows0 := CompleteIndices(init), DropMissing(init);
      var idx, rows := CompleteIndices(recs), DropMissing(recs);
      assert idx == idx0 + (if Complete(last).Some? then [|recs| - 1] else []);
      assert rows == rows0 + (match Complete(last) case Some(row) => [row] case None => []);
      forall k | 0 <= k < |idx| ensures Complete(recs[idx[k]]) == Some(rows[k]) {
        if k < |idx0| {
          assert rows[k] == rows0[k] && idx[k] == idx0[k] && init[idx0[k]] == recs[idx0[k]];
        }
      }
    }
  }

  /** Non-increasing in the one-week column. */
  predicate WeekDescending(rows: seq<Row>) {
    forall i, j :: 0 <= i < j < |rows| ==> rows[i].week >= rows[j].week
  }

  /**
   * Midway through inserting row `i`: the moving row sits at `j` and is larger than every
   * row after it up to `i`, and the other rows up to `i` are in order.
   */
  predicate Inserting(s: seq<Row>, i: nat, j: nat) {
    && j <= i < |s|
    && (forall p, q :: 0 <= p < q <= i && p != j && q != j ==> s[p].week >= s[q].week)
    && (forall q :: j < q <= i ==> s[j].week > s[q].week)
  }

  /** Swapping the moving row with a smaller left neighbour keeps `Inserting` one place left. */
  lemma SwapLeft(s: seq<Row>, i: nat, j: nat)
    requires Inserting(s, i, j) && 0 < j && s[j - 1].week < s[j].week
    ensures Inserting(s[j - 1 := s[j]][j := s[j - 1]], i, j - 1)
  {
  }

  /** Once the left neighbour is no smaller, the first `i + 1` rows are in order. */
  lemma InsertDone(s: seq<Row>, i: nat, j: nat)
    requires Inserting(s, i, j) && (j == 0 || s[j - 1].week >= s[j].week)
    ensures WeekDescending(s[..i + 1])
  {
  }

  /**
   * One step of the sort: the row at `i` moves left past every row with a smaller
   * one-week change, so that the first `i + 1` rows are in order.
   */
  method InsertDescending(a: array<Row>, i: nat)
    requires i < a.Length && WeekDescending(a[..i])
    modifies a
    ensures WeekDescending(a[..i + 1])
    ensures multiset(a[..]) == multiset(old(a[..]))
    ensures a[i + 1..] == old(a[i + 1..])
  {
    var j: nat := i;
    assert Inserting(a[..], i, j);
    while j > 0 && a[j - 1].week < a[j].week
      invariant Inserting(a[..], i, j)
      invariant multiset(a[..]) == multiset(old(a[..]))
      invariant a[i + 1..] == old(a[i + 1..])
      decreases j
    {
      SwapLeft(a[..], i, j);
      a[j - 1], a[j] := a[j], a[j - 1];
      j := j - 1;
    }
    InsertDone(a[..], i, j);
  }

  /**
   * `sort_values('1W', ascending=False, inplace=True)`: the frame is reordered in place
   * into non-increasing one-week order. Rows with equal one-week change may end up in
   * any order, as with pandas' unstable default sort.
   */
  method SortByWeekDescending(a: array<Row>)
    modifies a
    ensures WeekDescending(a[..])
    ensures multiset(a[..]) == multiset(old(a[..]))
  {
    var i := 0;
    while i < a.Length
      invariant 0 <= i <= a.Length
      invariant WeekDescending(a[..i])
      invariant multiset(a[..]) == multiset(old(a[..]))
    {
      InsertDescending(a, i);
      i := i + 1;
    }
    assert a[..a.Length] == a[..];
  }

  /** The strict one-month test of the slider filter; the threshold is in percent. */
  predicate MonthAbove(row: Row, threshold: int): (b: bool)
    ensures b <==> row.month > threshold as real / 100.0
  {
    row.month * 100.0 > threshold as real
  }

  /** `df[df["1M"] * 100 > threshold]`: the passing rows, in their original order. */
  function FilterByMonth(rows: seq<Row>, threshold: int): (r: seq<Row>)
    ensures |r| <= |rows|
    ensures forall k :: 0 <= k < |r| ==> MonthAbove(r[k], threshold)
  {
    if rows == [] then []
    else
      var last := rows[|rows| - 1];
      FilterByMonth(rows[..|rows| - 1], threshold) + (if MonthAbove(last, threshold) then [last] else [])
  }

  /** A row is kept exactly when it is in the frame and passes the strict test. */
  lemma {:induction false} FilterByMonthMembers(rows: seq<Row>, threshold: int, row: Row)
    ensures row in FilterByMonth(rows, threshold) <==> row in rows && MonthAbove(row, threshold)
  {
    if rows != [] {
      var init := rows[..|rows| - 1];
      assert rows == init + [rows[|rows| - 1]];
      FilterByMonthMembers(init, threshold, row);
    }
  }

  /** The positions of the passing rows: increasing, and exactly the rows that pass. */
  function KeptIndices(rows: seq<Row>, threshold: int): (idx: seq<nat>)
    ensures forall k :: 0 <= k < |idx| ==> idx[k] < |rows|
    ensures forall k, l :: 0 <= k < l < |idx| ==> idx[k] < idx[l]
    ensures forall i :: 0 <= i < |rows| ==> (i in idx <==> MonthAbove(rows[i], threshold))
  {
    if rows == [] then []
    else
      var init := rows[..|rows| - 1];
      assert forall i :: 0 <= i < |init| ==> init[i] == rows[i];
      KeptIndices(init, threshold)
      + (if MonthAbove(rows[|rows| - 1], threshold) then [|rows| - 1] else [])
  }

  /**
   * The filter keeps relative order: its result is the input read at the positions
   * `KeptIndices` gives, which increase and are exactly the passing rows.
   */
  lemma {:induction false} FilterByMonthKeepsOrder(rows: seq<Row>, threshold: int)
    ensures var idx, r := KeptIndices(rows, threshold), FilterByMonth(rows, threshold);
      |idx| == |r| && forall k :: 0 <= k < |idx| ==> r[k] == rows[idx[k]]
  {
    if rows != [] {
      var init, last := rows[..|rows| - 1], rows[|rows| - 1];
      FilterByMonthKeepsOrder(init, threshold);
      var idx0, r0 := KeptIndices(init, threshold), FilterByMonth(init, threshold);
      var pass := MonthAbove(last, threshold);
      var idx, r := KeptIndices(rows, threshold), FilterByMonth(rows, threshold);
      assert idx == idx0 + (if pass then [|rows| - 1] else []);
      assert r == r0 + (if pass then [last] else []);
      forall k | 0 <= k < |idx| ensures r[k] == rows[idx[k]] {
        if k < |idx0| {
          assert r[k] == r0[k] == init[idx0[k]] && idx[k] == idx0[k];
        }
      }
    }
  }

  /** Filtering a frame sorted by one-week change leaves it sorted. */
  lemma {:induction false} FilterByMonthKeepsWeekOrder(rows: seq<Row>, threshold: int)
    requires WeekDescending(rows)
    ensures WeekDescending(FilterByMonth(rows, threshold))
  {
    if rows != [] {
      var init, last := rows[..|rows| - 1], rows[|rows| - 1];
      FilterByMonthKeepsWeekOrder(init, threshold);
      var kept := FilterByMonth(init, threshold);
      forall k | 0 <= k < |kept| ensures kept[k].week >= last.week {
        FilterByMonthMembers(init, threshold, kept[k]);
        var m :| 0 <= m < |init| && init[m] == kept[k];
        assert rows[m] == kept[k];
      }
    }
  }
}
