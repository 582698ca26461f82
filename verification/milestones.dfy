/** Locating milestone timestamps in the event stream: the time origin
    (`getInitTS`) and the named paint milestones (`getNameValue`). */
module Milestones {
  import opened Results
  import opened Trace

  /** The loops below start from, and test for, this sentinel. */
  const Sentinel: int := -1

  // ---------------------------------------------------------------------
  // Time origin
  // ---------------------------------------------------------------------

  /** The event has a `ts` key holding a strictly positive value. */
  predicate StartsClock(e: Event) {
    e.ts.Some? && e.ts.value > 0
  }

  /** Position `k` holds the earliest event that starts the clock. */
  ghost predicate IsFirstClock(events: seq<Event>, k: int) {
    && 0 <= k < |events|
    && StartsClock(events[k])
    && forall j | 0 <= j < k :: !StartsClock(events[j])
  }

  /** The forward scan with early exit: the `ts` of the first clock-starting
      event, or the sentinel when the scan runs off the end. */
  function ScanInit(events: seq<Event>): int {
    if |events| == 0 then Sentinel
    else if StartsClock(events[0]) then events[0].ts.value
    else ScanInit(events[1..])
  }

  lemma {:induction false} ScanInitFindsFirst(events: seq<Event>)
    ensures forall k | IsFirstClock(events, k) :: ScanInit(events) == events[k].ts.value
    ensures (forall i | 0 <= i < |events| :: !StartsClock(events[i])) ==> ScanInit(events) == Sentinel
  {
    if |events| > 0 && !StartsClock(events[0]) {
      ScanInitFindsFirst(events[1..]);
      forall k | IsFirstClock(events, k)
        ensures ScanInit(events) == events[k].ts.value
      {
        assert IsFirstClock(events[1..], k - 1);
      }
      if forall i | 0 <= i < |events| :: !StartsClock(events[i]) {
        assert forall i | 0 <= i < |events[1..]| :: !StartsClock(events[1..][i]) by {
          forall i | 0 <= i < |events[1..]| ensures !StartsClock(events[1..][i]) {
            assert events[1..][i] == events[i + 1];
          }
        }
      }
    }
  }

  /** `getInitTS`: the timestamp of the first event whose `ts` is strictly
      positive, failing exactly when there is none. Events before it, with
      no `ts` or a non-positive one, play no part. */
  function InitTS(events: seq<Event>): (r: Result<int>)
    ensures forall k | IsFirstClock(events, k) :: r == Ok(events[k].ts.value)
    ensures r.Err? <==> forall i | 0 <= i < |events| :: !StartsClock(events[i])
    ensures r.Err? ==> r.error == MissingInitTimestamp
    ensures r.Ok? ==> r.value > 0
  {
    ScanInitFindsFirst(events);
    FirstClockExists(events);
    var t := ScanInit(events);
    if t == Sentinel then Err(MissingInitTimestamp) else Ok(t)
  }

  /** Whenever some event starts the clock, an earliest one does. */
  lemma {:induction false} FirstClockExists(events: seq<Event>)
    ensures (exists i | 0 <= i < |events| :: StartsClock(events[i])) ==>
              exists k :: IsFirstClock(events, k)
  {
    if |events| > 0 {
      if StartsClock(events[0]) {
        assert IsFirstClock(events, 0);
      } else {
        FirstClockExists(events[1..]);
        if exists i | 0 <= i < |events| :: StartsClock(events[i]) {
          var i :| 0 <= i < |events| && StartsClock(events[i]);
          assert StartsClock(events[1..][i - 1]);
          var k :| IsFirstClock(events[1..], k);
          assert IsFirstClock(events, k + 1);
        }
      }
    }
  }

  /** Prepending events that do not start the clock leaves the time origin unchanged. */
  lemma {:induction false} InitTSIgnoresNonPositivePrefix(prefix: seq<Event>, events: seq<Event>)
    requires forall i | 0 <= i < |prefix| :: !StartsClock(prefix[i])
    ensures ScanInit(prefix + events) == ScanInit(events)
    ensures InitTS(prefix + events) == InitTS(events)
  {
    if |prefix| > 0 {
      assert (prefix + events)[0] == prefix[0];
      assert (prefix + events)[1..] == prefix[1..] + events;
      InitTSIgnoresNonPositivePrefix(prefix[1..], events);
    } else {
      assert prefix + events == events;
    }
  }

  // ---------------------------------------------------------------------
  // Named milestones
  // ---------------------------------------------------------------------

  const FirstPaint: string := "firstPaint"
  const FirstMeaningfulPaint: string := "firstMeaningfulPaint"
  const LcpCandidate: string := "largestContentfulPaint::Candidate"

  /** No event is named `key`. */
  ghost predicate NoneNamed(events: seq<Event>, key: string) {
    forall i | 0 <= i < |events| :: !Named(events[i], key)
  }

  /** Position `k` holds the earliest event named `key`. */
  ghost predicate IsFirstNamed(events: seq<Event>, key: string, k: int) {
    && 0 <= k < |events|
    && Named(events[k], key)
    && forall j | 0 <= j < k :: !Named(events[j], key)
  }

  /** Position `k` holds the latest event named `key`. */
  ghost predicate IsLastNamed(events: seq<Event>, key: string, k: int) {
    && 0 <= k < |events|
    && Named(events[k], key)
    && forall j | k < j < |events| :: !Named(events[j], key)
  }

  /** The scan loop of `getNameValue`: on every event named `key` the running
      value becomes that event's `ts` (`None` when it has no `ts`, which is JS
      `undefined`), and with `first` set the scan stops there. */
  function ScanName(key: string, first: bool, events: seq<Event>, ts: Option<int>): Option<int> {
    if |events| == 0 then ts
    else if Named(events[0], key) then
      if first then events[0].ts else ScanName(key, first, events[1..], events[0].ts)
    else ScanName(key, first, events[1..], ts)
  }

  lemma {:induction false} ScanNameNoMatch(key: string, first: bool, events: seq<Event>, ts: Option<int>)
    ensures NoneNamed(events, key) ==> ScanName(key, first, events, ts) == ts
  {
    if |events| > 0 && NoneNamed(events, key) {
      assert NoneNamed(events[1..], key) by {
        forall i | 0 <= i < |events[1..]| ensures !Named(events[1..][i], key) {
          assert events[1..][i] == events[i + 1];
        }
      }
      ScanNameNoMatch(key, first, events[1..], ts);
    }
  }

  lemma {:induction false} ScanNameFirst(key: string, events: seq<Event>, ts: Option<int>)
    ensures forall k | IsFirstNamed(events, key, k) :: ScanName(key, true, events, ts) == events[k].ts
  {
    if |events| > 0 && !Named(events[0], key) {
      ScanNameFirst(key, events[1..], ts);
      forall k | IsFirstNamed(events, key, k)
        ensures ScanName(key, true, events, ts) == events[k].ts
      {
        assert IsFirstNamed(events[1..], key, k - 1);
      }
    }
  }

  lemma {:induction false} ScanNameLast(key: string, events: seq<Event>, ts: Option<int>)
    ensures forall k | IsLastNamed(events, key, k) :: ScanName(key, false, events, ts) == events[k].ts
  {
    if |events| > 0 {
      var next := if Named(events[0], key) then events[0].ts else ts;
      ScanNameLast(key, events[1..], next);
      forall k | IsLastNamed(events, key, k)
        ensures ScanName(key, false, events, ts) == events[k].ts
      {
        if k == 0 {
          assert NoneNamed(events[1..], key) by {
            forall i | 0 <= i < |events[1..]| ensures !Named(events[1..][i], key) {
              assert events[1..][i] == events[i + 1];
            }
          }
          ScanNameNoMatch(key, false, events[1..], next);
        } else {
          assert IsLastNamed(events[1..], key, k - 1);
        }
      }
    }
  }

  /** Whenever some event is named `key`, an earliest and a latest one exist. */
  lemma {:induction false} NamedEndsExist(key: string, events: seq<Event>)
    ensures !NoneNamed(events, key) ==> exists k :: IsFirstNamed(events, key, k)
    ensures !NoneNamed(events, key) ==> exists k :: IsLastNamed(events, key, k)
  {
    if |events| > 0 {
      NamedEndsExist(key, events[1..]);
      var tail := events[1..];
      if NoneNamed(tail, key) {
        if Named(events[0], key) {
          assert IsFirstNamed(events, key, 0);
          assert IsLastNamed(events, key, 0) by {
            forall j | 0 < j < |events| ensures !Named(events[j], key) {
              assert events[j] == tail[j - 1];
            }
          }
        } else {
          assert NoneNamed(events, key) by {
            forall i | 0 <= i < |events| ensures !Named(events[i], key) {
              if i > 0 { assert events[i] == tail[i - 1]; }
            }
          }
        }
      } else {
        var f :| IsFirstNamed(tail, key, f);
        var l :| IsLastNamed(tail, key, l);
        assert IsLastNamed(events, key, l + 1);
        if Named(events[0], key) {
          assert IsFirstNamed(events, key, 0);
        } else {
          assert IsFirstNamed(events, key, f + 1);
        }
      }
    }
  }

  /** `getNameValue`: the `ts` of the first (`first`) or the last (`!first`)
      event named `key`. It fails when no event has that name, and also when
      the chosen event's own `ts` is `-1`, since that value is the sentinel.
      A chosen event without `ts` yields `Ok(None)`, JS `undefined`. */
  function NameValue(key: string, first: bool, events: seq<Event>): (r: Result<Option<int>>)
    ensures NoneNamed(events, key) ==> r == Err(MilestoneNotFound(key))
    ensures first ==> forall k | IsFirstNamed(events, key, k) ::
              if events[k].ts == Some(Sentinel) then r.Err? else r == Ok(events[k].ts)
    ensures !first ==> forall k | IsLastNamed(events, key, k) ::
              if events[k].ts == Some(Sentinel) then r.Err? else r == Ok(events[k].ts)
    ensures r.Err? ==> r.error == MilestoneNotFound(key)
    ensures r.Ok? ==> exists k ::
              (if first then IsFirstNamed(events, key, k) else IsLastNamed(events, key, k))
              && r.value == events[k].ts
  {
    NamedEndsExist(key, events);
    ScanNameNoMatch(key, first, events, Some(Sentinel));
    ScanNameFirst(key, events, Some(Sentinel));
    ScanNameLast(key, events, Some(Sentinel));
    var ts := ScanName(key, first, events, Some(Sentinel));
    if ts == Some(Sentinel) then Err(MilestoneNotFound(key)) else Ok(ts)
  }

  /** Reading a named milestone at a known position: the first match under
      the first-occurrence policy, the last under the last-occurrence policy. */
  lemma NameValueAt(key: string, first: bool, events: seq<Event>, k: int)
    requires if first then IsFirstNamed(events, key, k) else IsLastNamed(events, key, k)
    requires events[k].ts != Some(Sentinel)
    ensures NameValue(key, first, events) == Ok(events[k].ts)
  {
  }

  /** With the first-occurrence policy, events after a match never matter. */
  lemma FirstPolicyIgnoresLaterEvents(key: string, prefix: seq<Event>, rest: seq<Event>, k: int)
    requires IsFirstNamed(prefix, key, k)
    ensures NameValue(key, true, prefix + rest) == NameValue(key, true, prefix)
  {
    assert IsFirstNamed(prefix + rest, key, k);
  }

  /** With the last-occurrence policy, trailing events without the name never matter. */
  lemma LastPolicyIgnoresUnnamedSuffix(key: string, prefix: seq<Event>, rest: seq<Event>, k: int)
    requires IsLastNamed(prefix, key, k)
    requires NoneNamed(rest, key)
    ensures NameValue(key, false, prefix + rest) == NameValue(key, false, prefix)
  {
    assert IsLastNamed(prefix + rest, key, k) by {
      forall j | k < j < |prefix + rest| ensures !Named((prefix + rest)[j], key) {
        if j >= |prefix| { assert (prefix + rest)[j] == rest[j - |prefix|]; }
      }
    }
  }

  /** On one stream the two policies report the two ends of the matches:
      the first policy the earliest, the last policy the latest. */
  lemma PoliciesPickOppositeEnds(key: string, events: seq<Event>, i: int, j: int)
    requires IsFirstNamed(events, key, i) && IsLastNamed(events, key, j)
    requires events[i].ts != Some(Sentinel) && events[j].ts != Some(Sentinel)
    ensures NameValue(key, true, events) == Ok(events[i].ts)
    ensures NameValue(key, false, events) == Ok(events[j].ts)
    ensures i <= j
  {
  }
}
