/**
 * The screener's driver (`generate_momentum_data`, and the same top-level loop of the
 * CSV generator): compute a record per ticker, keep the ones produced in ticker order,
 * build the frame, drop incomplete rows and sort it by one-week change.
 *
 * The download of each ticker is an input: `downloads[i]` is what the download of
 * `tickers[i]` returned, `None` when it raised.
 */
module Screener {
  import opened Wrappers
  import opened Momentum
  import opened Frames
  import Tickers

  /** The exception pandas raises when sorting by a column the frame does not have. */
  datatype Error = MissingColumn(name: string)

  predicate AllDownloadable(downloads: seq<Option<seq<Obs>>>) {
    forall i :: 0 <= i < |downloads| ==> Downloadable(downloads[i])
  }

  /** What `calculate_momentum` returns for each ticker, in ticker order. */
  function Outcomes(tickers: seq<string>, downloads: seq<Option<seq<Obs>>>): (ms: seq<Option<Record>>)
    requires |downloads| == |tickers| && AllDownloadable(downloads)
    ensures |ms| == |tickers|
  {
    seq(|tickers|, i requires 0 <= i < |tickers| => CalculateMomentum(tickers[i], downloads[i]))
  }

  /** The values present in `ms`, in order: what `if m: results.append(m)` collects. */
  function Present<T>(ms: seq<Option<T>>): (r: seq<T>)
    ensures |r| <= |ms|
  {
    if ms == [] then []
    else
      Present(ms[..|ms| - 1])
      + (match ms[|ms| - 1] case Some(m) => [m] case None => [])
  }

  /**
   * Unfolding `Present` one outcome at a time: collecting one more outcome appends its
   * value, if any. This is the step the driver loop's invariant needs.
   */
  lemma PresentStep<T>(ms: seq<Option<T>>, i: nat)
    requires i < |ms|
    ensures Present(ms[..i + 1]) == Present(ms[..i]) + (match ms[i] case Some(m) => [m] case None => [])
  {
    assert ms[..i + 1][..i] == ms[..i];
  }

  /** The positions of the present outcomes: increasing, and exactly the `Some` ones. */
  function SomeIndices<T>(ms: seq<Option<T>>): (idx: seq<nat>)
    ensures forall k :: 0 <= k < |idx| ==> idx[k] < |ms|
    ensures forall k, l :: 0 <= k < l < |idx| ==> idx[k] < idx[l]
    ensures forall i :: 0 <= i < |ms| ==> (i in idx <==> ms[i].Some?)
  {
    if ms == [] then []
    else
      var init := ms[..|ms| - 1];
      assert forall i :: 0 <= i < |init| ==> init[i] == ms[i];
      SomeIndices(init) + (if ms[|ms| - 1].Some? then [|ms| - 1] else [])
  }

  /**
   * Each present outcome is collected exactly once and in order: the collected list is
   * the outcomes read at `SomeIndices`.
   */
  lemma {:induction false} PresentKeepsOrder<T>(ms: seq<Option<T>>)
    ensures var idx, r := SomeIndices(ms), Present(ms);
      |idx| == |r| && forall k :: 0 <= k < |idx| ==> ms[idx[k]] == Some(r[k])
  {
    if ms != [] {
      var init, last := ms[..|ms| - 1], ms[|ms| - 1];
      PresentKeepsOrder(init);
      var idx0, r0 := SomeIndices(init), Present(init);
      var idx, r := SomeIndices(ms), Present(ms);
      assert idx == idx0 + (if last.Some? then [|ms| - 1] else []);
      assert r == r0 + (match last case Some(m) => [m] case None => []);
      forall k | 0 <= k < |idx| ensures ms[idx[k]] == Some(r[k]) {
        if k < |idx0| {
          assert r[k] == r0[k] && idx[k] == idx0[k] && init[idx0[k]] == ms[idx0[k]];
        }
      }
    }
  }

  /** A value is collected exactly when some outcome holds it. */
  lemma {:induction false} PresentMembers<T>(ms: seq<Option<T>>, x: T)
    ensures x in Present(ms) <==> Some(x) in ms
  {
    if ms != [] {
      var init := ms[..|ms| - 1];
      assert ms == init + [ms[|ms| - 1]];
      PresentMembers(init, x);
    }
  }

  /** The records the loop appends (the `results` list), in ticker order. */
  function Produced(tickers: seq<string>, downloads: seq<Option<seq<Obs>>>): (recs: seq<Record>)
    requires |downloads| == |tickers| && AllDownloadable(downloads)
    ensures |recs| <= |tickers|
    ensures forall k :: 0 <= k < |recs| ==> recs[k].ticker in tickers
  {
    var outs := Outcomes(tickers, downloads);
    var recs := Present(outs);
    forall k | 0 <= k < |recs| ensures recs[k].ticker in tickers {
      PresentMembers(outs, recs[k]);
      var i :| 0 <= i < |outs| && outs[i] == Some(recs[k]);
      assert CalculateMomentum(tickers[i], downloads[i]) == Some(recs[k]);
    }
    recs
  }

  /**
   * Each loop iteration appends at most one record: the `k`-th record comes from the
   * ticker at position `SomeIndices(...)[k]`, those positions strictly increase, so no
   * ticker position contributes twice, and the record carries that ticker.
   */
  lemma ProducedOnePerTicker(tickers: seq<string>, downloads: seq<Option<seq<Obs>>>)
    requires |downloads| == |tickers| && AllDownloadable(downloads)
    ensures var idx, recs := SomeIndices(Outcomes(tickers, downloads)), Produced(tickers, downloads);
      && |idx| == |recs|
      && (forall k, l :: 0 <= k < l < |idx| ==> idx[k] < idx[l])
      && forall k :: 0 <= k < |idx| ==>
           idx[k] < |tickers| && CalculateMomentum(tickers[idx[k]], downloads[idx[k]]) == Some(recs[k])
           && recs[k].ticker == tickers[idx[k]]
  {
    var outs := Outcomes(tickers, downloads);
    var idx, recs := SomeIndices(outs), Produced(tickers, downloads);
    PresentKeepsOrder(outs);
    forall k | 0 <= k < |idx|
      ensures CalculateMomentum(tickers[idx[k]], downloads[idx[k]]) == Some(recs[k])
      ensures recs[k].ticker == tickers[idx[k]]
    {
      assert outs[idx[k]] == Some(recs[k]);
    }
  }

  /** A record is produced exactly when some ticker's calculation returns it. */
  lemma ProducedMembers(tickers: seq<string>, downloads: seq<Option<seq<Obs>>>, rec: Record)
    requires |downloads| == |tickers| && AllDownloadable(downloads)
    ensures rec in Produced(tickers, downloads) <==>
      exists i :: 0 <= i < |tickers| && CalculateMomentum(tickers[i], downloads[i]) == Some(rec)
  {
    var outs := Outcomes(tickers, downloads);
    PresentMembers(outs, rec);
    if Some(rec) in outs {
      var i :| 0 <= i < |outs| && outs[i] == Some(rec);
      assert CalculateMomentum(tickers[i], downloads[i]) == Some(rec);
    }
    if exists i :: 0 <= i < |tickers| && CalculateMomentum(tickers[i], downloads[i]) == Some(rec) {
      var i :| 0 <= i < |tickers| && CalculateMomentum(tickers[i], downloads[i]) == Some(rec);
      assert outs[i] == Some(rec);
    }
  }

  /**
   * The frame's rows are exactly the complete records: a row is present when some
   * ticker's calculation produced a record with all four lookbacks that becomes it.
   */
  lemma RowsAreCompleteRecords(tickers: seq<string>, downloads: seq<Option<seq<Obs>>>, row: Row)
    requires |downloads| == |tickers| && AllDownloadable(downloads)
    ensures row in DropMissing(Produced(tickers, downloads)) <==>
      exists i :: 0 <= i < |tickers| && CalculateMomentum(tickers[i], downloads[i]).Some?
                  && Complete(CalculateMomentum(tickers[i], downloads[i]).value) == Some(row)
  {
    var recs := Produced(tickers, downloads);
    DropMissingMembers(recs, row);
    if row in DropMissing(recs) {
      var k :| 0 <= k < |recs| && Complete(recs[k]) == Some(row);
      ProducedMembers(tickers, downloads, recs[k]);
    }
    if exists i :: 0 <= i < |tickers| && CalculateMomentum(tickers[i], downloads[i]).Some?
                   && Complete(CalculateMomentum(tickers[i], downloads[i]).value) == Some(row) {
      var i :| 0 <= i < |tickers| && CalculateMomentum(tickers[i], downloads[i]).Some?
               && Complete(CalculateMomentum(tickers[i], downloads[i]).value) == Some(row);
      var rec := CalculateMomentum(tickers[i], downloads[i]).value;
      ProducedMembers(tickers, downloads, rec);
      var k :| 0 <= k < |recs| && recs[k] == rec;
    }
  }

  /**
   * `pd.DataFrame(results).dropna()` followed by the in-place descending sort on '1W'.
   * With no records the frame has no '1W' column and the sort raises; otherwise the
   * result holds exactly the complete records' rows, in non-increasing one-week order.
   */
  method RankFrame(results: seq<Record>) returns (frame: Result<seq<Row>, Error>)
    ensures frame.Failure? <==> results == []
    ensures frame.Failure? ==> frame.error == MissingColumn("1W")
    ensures frame.Success? ==> WeekDescending(frame.value)
    ensures frame.Success? ==> multiset(frame.value) == multiset(DropMissing(results))
  {
    var rows := DropMissing(results);
    if results == [] {
      return Failure(MissingColumn("1W"));
    }
    var df := new Row[|rows|](k requires 0 <= k < |rows| => rows[k]);
    assert df[..] == rows;
    SortByWeekDescending(df);
    frame := Success(df[..]);
  }

  /**
   * `generate_momentum_data()`, and the same top-level loop of the CSV generator: the
   * scraped symbol column is normalised (`get_sp500_tickers`), then one calculation per
   * ticker, the produced records appended in ticker order, and the frame is built and
   * ranked. `downloads[i]` is the download of the `i`-th normalised ticker.
   */
  method GenerateMomentumData(scraped: seq<string>, downloads: seq<Option<seq<Obs>>>)
    returns (frame: Result<seq<Row>, Error>)
    requires |downloads| == |scraped| && AllDownloadable(downloads)
    ensures frame.Failure? <==> Produced(Tickers.NormalizeAll(scraped), downloads) == []
    ensures frame.Failure? ==> frame.error == MissingColumn("1W")
    ensures frame.Success? ==> WeekDescending(frame.value)
    ensures frame.Success? ==>
      multiset(frame.value) == multiset(DropMissing(Produced(Tickers.NormalizeAll(scraped), downloads)))
  {
    var tickers := Tickers.NormalizeAll(scraped);
    ghost var outs := Outcomes(tickers, downloads);
    var results: seq<Record> := [];
    for i := 0 to |tickers|
      invariant results == Present(outs[..i])
    {
      var m := CalculateMomentum(tickers[i], downloads[i]);
      PresentStep(outs, i);
      if m.Some? {
        results := results + [m.value];
      }
    }
    assert outs[..|tickers|] == outs;
    frame := RankFrame(results);
  }
}
