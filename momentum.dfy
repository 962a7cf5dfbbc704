/**
 * The momentum calculation (`calculate_momentum` with its inner `pct_change`).
 *
 * A downloaded hourly close series is a sequence of observations; a timestamp is
 * a whole number of seconds, so a lookback of `h` hours reaches back `h * 3600`.
 * The download itself is an input: `None` stands for a download that raised
 * (the bare `except` that turns every failure into `None`).
 */
module Momentum {
  import opened Wrappers

  datatype Obs = Obs(ts: int, price: real)

  const SecondsPerHour: int := 3600

  /** `24*5`: a series with fewer observations yields no record. */
  const MinObservations: nat := 24 * 5

  /** The four columns of a record, with the lookback each one uses. */
  datatype Lookback = OneHour | OneWeek | OneMonth | OneYear {
    function Hours(): (h: nat)
      ensures h >= 1
    {
      match this
      case OneHour => 1
      case OneWeek => 24 * 7
      case OneMonth => 24 * 30
      case OneYear => 24 * 365
    }
  }

  /** Every close is positive (the code divides by a past close without a guard). */
  predicate Positive(s: seq<Obs>) {
    forall i :: 0 <= i < |s| ==> s[i].price > 0.0
  }

  /** The index is sorted with no duplicate timestamp. */
  predicate Increasing(s: seq<Obs>) {
    forall i, j :: 0 <= i < j < |s| ==> s[i].ts < s[j].ts
  }

  /** `df[df.index <= target]`: the observations at or before `target`, in series order. */
  function AtOrBefore(s: seq<Obs>, target: int): (r: seq<Obs>)
    ensures |r| <= |s|
    ensures forall i :: 0 <= i < |r| ==> r[i].ts <= target
  {
    if s == [] then []
    else AtOrBefore(s[..|s| - 1], target) + (if s[|s| - 1].ts <= target then [s[|s| - 1]] else [])
  }

  /** The filter keeps exactly the observations at or before the target. */
  lemma {:induction false} AtOrBeforeMembers(s: seq<Obs>, target: int)
    ensures forall o :: o in AtOrBefore(s, target) <==> o in s && o.ts <= target
  {
    if s != [] {
      var init := s[..|s| - 1];
      assert s == init + [s[|s| - 1]];
      AtOrBeforeMembers(init, target);
    }
  }

  /** `now - timedelta(hours=h)`, where `now` is the last index entry. */
  function Target(s: seq<Obs>, hours: nat): (t: int)
    requires s != []
    ensures t <= s[|s| - 1].ts
    ensures hours >= 1 ==> t < s[|s| - 1].ts
  {
    s[|s| - 1].ts - hours * SecondsPerHour
  }

  /**
   * `pct_change(hours)`: the relative change from the last observation at or before
   * the target to the latest observation, or `None` when no observation is that old.
   */
  function PctChange(s: seq<Obs>, hours: nat): (r: Option<real>)
    requires s != [] && Positive(s)
    ensures r.None? <==> forall i :: 0 <= i < |s| ==> s[i].ts > Target(s, hours)
    ensures r.Some? ==> r.value > -1.0
  {
    var past := AtOrBefore(s, Target(s, hours));
    AtOrBeforeMembers(s, Target(s, hours));
    if past != [] then
      var reference := past[|past| - 1].price;
      assert past[|past| - 1] in past;
      var latest := s[|s| - 1].price;
      ChangeAboveMinusOne(latest, reference);
      Some((latest - reference) / reference)
    else
      assert forall i :: 0 <= i < |s| ==> s[i] in s;
      None
  }

  /** Both prices positive: the relative change exceeds -100%. */
  lemma ChangeAboveMinusOne(latest: real, reference: real)
    requires latest > 0.0 && reference > 0.0
    ensures (latest - reference) / reference > -1.0
  {
  }

  /**
   * On a sorted index the filter `df.index <= target` selects a prefix: the first
   * `|AtOrBefore(s, target)|` observations are at or before the target and every later
   * one is after it.
   */
  lemma {:induction false} AtOrBeforeIsPrefix(s: seq<Obs>, target: int)
    requires Increasing(s)
    ensures AtOrBefore(s, target) == s[..|AtOrBefore(s, target)|]
    ensures forall i :: 0 <= i < |AtOrBefore(s, target)| ==> s[i].ts <= target
    ensures forall i :: |AtOrBefore(s, target)| <= i < |s| ==> s[i].ts > target
  {
    if s != [] {
      var init, last := s[..|s| - 1], s[|s| - 1];
      assert s == init + [last];
      AtOrBeforeIsPrefix(init, target);
      var past := AtOrBefore(init, target);
      assert AtOrBefore(s, target) == past + (if last.ts <= target then [last] else []);
      if last.ts <= target {
        assert past == init;
      }
    }
  }

  /** The position of the reference observation for a lookback of `hours`, or -1 when there is none. */
  function ReferenceIndex(s: seq<Obs>, hours: nat): int
    requires s != []
  {
    |AtOrBefore(s, Target(s, hours))| - 1
  }

  /**
   * On a sorted series the reference is the most recent observation at or before
   * `now - hours`, it lies strictly before the latest observation when the lookback
   * is at least an hour, and a present change is `(latest - reference) / reference`.
   */
  lemma PctChangeReference(s: seq<Obs>, hours: nat)
    requires s != [] && Positive(s) && Increasing(s)
    ensures var k := ReferenceIndex(s, hours);
      && -1 <= k < |s|
      && (hours >= 1 ==> k < |s| - 1)
      && (forall j :: 0 <= j <= k ==> s[j].ts <= Target(s, hours))
      && (forall j :: k < j < |s| ==> s[j].ts > Target(s, hours))
      && PctChange(s, hours) == if k < 0 then None
                                else Some((s[|s| - 1].price - s[k].price) / s[k].price)
  {
    AtOrBeforeIsPrefix(s, Target(s, hours));
  }

  /**
   * A longer lookback looks at a prefix of what a shorter one looks at: its reference
   * is no later, and when it is present the shorter one is present too.
   */
  lemma LongerLookbackIsPrefix(s: seq<Obs>, shorter: nat, longer: nat)
    requires s != [] && Positive(s) && Increasing(s)
    requires shorter <= longer
    ensures AtOrBefore(s, Target(s, longer)) <= AtOrBefore(s, Target(s, shorter))
    ensures ReferenceIndex(s, longer) <= ReferenceIndex(s, shorter)
    ensures PctChange(s, longer).Some? ==> PctChange(s, shorter).Some?
  {
    var far, near := AtOrBefore(s, Target(s, longer)), AtOrBefore(s, Target(s, shorter));
    AtOrBeforeIsPrefix(s, Target(s, longer));
    AtOrBeforeIsPrefix(s, Target(s, shorter));
    assert |near| < |s| ==> s[|near|].ts > Target(s, longer);
    assert far == s[..|far|] && near == s[..|near|];
  }

  /** The dictionary `calculate_momentum` builds: the ticker and one optional change per lookback. */
  datatype Record = Record(ticker: string, hour: Option<real>, week: Option<real>,
                           month: Option<real>, year: Option<real>)
  {
    function Get(lb: Lookback): Option<real> {
      match lb
      case OneHour => hour
      case OneWeek => week
      case OneMonth => month
      case OneYear => year
    }
  }

  /** Prices are positive whenever the download produced a series. */
  predicate Downloadable(download: Option<seq<Obs>>) {
    download.Some? ==> Positive(download.value)
  }

  /**
   * `calculate_momentum(ticker)` given the result of the download. No record for a
   * failed download or a series shorter than `MinObservations`; otherwise the ticker
   * and each lookback's `PctChange`.
   */
  function CalculateMomentum(ticker: string, download: Option<seq<Obs>>): (r: Option<Record>)
    requires Downloadable(download)
    ensures r.Some? <==> download.Some? && |download.value| >= MinObservations
    ensures r.Some? ==> r.value.ticker == ticker
    ensures r.Some? ==> forall lb: Lookback :: r.value.Get(lb) == PctChange(download.value, lb.Hours())
  {
    match download
    case None => None
    case Some(s) =>
      if s == [] || |s| < MinObservations then None
      else Some(Record(ticker, PctChange(s, OneHour.Hours()), PctChange(s, OneWeek.Hours()),
                       PctChange(s, OneMonth.Hours()), PctChange(s, OneYear.Hours())))
  }

  /**
   * Within one record the lookbacks nest: a year-old reference implies a month-old one,
   * which implies a week-old one, which implies an hour-old one.
   */
  lemma RecordLookbacksNest(ticker: string, download: Option<seq<Obs>>)
    requires Downloadable(download)
    requires CalculateMomentum(ticker, download).Some?
    ensures var r := CalculateMomentum(ticker, download).value;
      && (r.year.Some? ==> r.month.Some?)
      && (r.month.Some? ==> r.week.Some?)
      && (r.week.Some? ==> r.hour.Some?)
  {
  }

  /**
   * In a record built from a sorted series, every lookback's reference lies strictly
   * before the latest observation (each lookback is at least an hour), and a present
   * value is the change from that reference to the latest close.
   */
  lemma RecordReferencesPrecedeLatest(ticker: string, s: seq<Obs>, lb: Lookback)
    requires Positive(s) && Increasing(s)
    requires CalculateMomentum(ticker, Some(s)).Some?
    ensures var k := ReferenceIndex(s, lb.Hours());
      && -1 <= k < |s| - 1
      && CalculateMomentum(ticker, Some(s)).value.Get(lb) ==
           if k < 0 then None else Some((s[|s| - 1].price - s[k].price) / s[k].price)
  {
    PctChangeReference(s, lb.Hours());
  }
}
