/** The timing figures of `getMetrics`: each paint milestone minus the time
    origin, kept in integer microseconds. */
module Timing {
  import opened Results
  import opened Trace
  import opened Milestones

  /** The three durations; `None` stands for JS `NaN`, the difference taken
      with a milestone that was `undefined`. */
  datatype Timings = Timings(
    firstPaint: Option<int>,
    firstMeaningfulPaint: Option<int>,
    largestContentfulPaint: Option<int>)

  /** `milestone - init` on JS values: a number when the milestone is one. */
  function Elapsed(milestone: Option<int>, init: int): (d: Option<int>)
    ensures d.Some? <==> milestone.Some?
    ensures d.Some? ==> init + d.value == milestone.value
  {
    match milestone
    case None => None
    case Some(t) => Some(t - init)
  }

  /** `getMetrics` without its I/O: the time origin first, then first paint
      (first occurrence), first meaningful paint and the LCP candidate (last
      occurrence); the first of these lookups to fail decides the error. */
  function Metrics(events: seq<Event>): (r: Result<Timings>)
    ensures r.Ok? <==>
              && InitTS(events).Ok?
              && NameValue(FirstPaint, true, events).Ok?
              && NameValue(FirstMeaningfulPaint, false, events).Ok?
              && NameValue(LcpCandidate, false, events).Ok?
    ensures InitTS(events).Err? ==> r == Err(MissingInitTimestamp)
    ensures InitTS(events).Ok? && NoneNamed(events, FirstPaint) ==> r == Err(MilestoneNotFound(FirstPaint))
  {
    var init :- InitTS(events);
    var fp :- NameValue(FirstPaint, true, events);
    var fmp :- NameValue(FirstMeaningfulPaint, false, events);
    var lcp :- NameValue(LcpCandidate, false, events);
    Ok(Timings(Elapsed(fp, init), Elapsed(fmp, init), Elapsed(lcp, init)))
  }

  /** A successful `Metrics` measures from the first clock-starting event to
      the first `firstPaint` event and to the last first-meaningful-paint and
      LCP candidate events. */
  lemma MetricsMeasureFromOrigin(events: seq<Event>, c: int, f: int, m: int, l: int)
    requires Metrics(events).Ok?
    requires IsFirstClock(events, c)
    requires IsFirstNamed(events, FirstPaint, f)
    requires IsLastNamed(events, FirstMeaningfulPaint, m)
    requires IsLastNamed(events, LcpCandidate, l)
    ensures Metrics(events).value.firstPaint == Elapsed(events[f].ts, events[c].ts.value)
    ensures Metrics(events).value.firstMeaningfulPaint == Elapsed(events[m].ts, events[c].ts.value)
    ensures Metrics(events).value.largestContentfulPaint == Elapsed(events[l].ts, events[c].ts.value)
  {
  }
}
