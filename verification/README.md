# Trace analysis core of the frontend performance tool

This project models, in Dafny, the analysis logic of a small tool that reads
browser performance traces (Chrome DevTools trace JSON) and derives page-load
timings from them. Three single forward passes over the ordered list of trace
events are modelled:

- **Time origin** (`getInitTS`): the `ts` of the first event whose `ts` is
  strictly positive.
- **Named milestones** (`getNameValue`): the `ts` of the first or the last
  event with a given `name`. `firstPaint` keeps the first match.
  `firstMeaningfulPaint` and `largestContentfulPaint::Candidate` keep the last.
  `getMetrics` turns each milestone into a duration by subtracting the time
  origin. Durations stay in integer microseconds.
- **Critical resources** (`getCriticalResources`): a small state machine.
  It rebuilds a `requests` object from `ResourceSendRequest`,
  `ResourceReceiveResponse` and `ResourceFinish` events, and stops at the first
  event later than the LCP candidate. It then deletes the unfinished records.
  The `end` of the first remaining key is the baseline. It reports every record
  that started at or before that baseline.

Modules:

- `Results` (results.dfy): `Option`, `Result` and the faults the code throws.
- `Trace` (trace.dfy): the event datatype. Each JSON field is optional.
- `Milestones` (milestones.dfy): `InitTS` and `NameValue`, with their scans.
- `Timing` (metrics.dfy): `Elapsed` and `Metrics`.
- `OrderedMap` (ordered_map.dfy): an insertion-ordered string-keyed map. It
  behaves like a JS object: assigning to an existing key keeps its position,
  and deleting keeps the others in order.
- `CriticalPath` (critical_resources.dfy): the reconstruction pass, the
  cleanup, the selection, and the lemmas relating records to events.

JS values are modelled explicitly where the code relies on them:

- An event without `ts` has `ts == None`.
- `getNameValue` returns `undefined` when the chosen event has no `ts`. This
  is `Ok(None)`.
- A duration computed from `undefined` is `NaN`, which is `None`.
- A finish event without `ts` sets `end` to `undefined`, which is
  `Finished(None)`. It survives the cleanup, because `undefined !== null`.
- Every comparison against `undefined` is false (`AtOrBefore`, `PastCutoff`).

Where the code throws, the model returns `Err`:

- no positive `ts`;
- a milestone left at the sentinel `-1`;
- a network event without `args.data`;
- a response for an id that was never sent;
- reading the first key of an empty `requests` object.

A few consequences of the code that are easy to misread:

- The cleanup drops a record exactly when its `end` is still `null`.
- The baseline is the `end` of the first remaining key in insertion order.
- The reported set is `start <= firstEnd`, so a record starting exactly at the
  baseline is included.
- A missing milestone throws. No sentinel is returned for it.
- First meaningful paint is looked up under `firstMeaningfulPaint` only; there
  is no fallback name.

## Model

| member | source | states |
|---|---|---|
| Milestones.InitTS | main.js:8-21 | The result is the `ts` of the earliest event whose `ts` is strictly positive. It fails with `MissingInitTimestamp` exactly when no event has a positive `ts`. A success is always positive. |
| Milestones.ScanInitFindsFirst | main.js:12-17 | The scan with `break` stops at the first clock-starting event and returns its `ts`. It returns the sentinel `-1` when no such event exists. |
| Milestones.FirstClockExists | main.js:12-17 | If any event has a positive `ts`, an earliest such event exists. So the scan's two outcomes cover every stream. |
| Milestones.InitTSIgnoresNonPositivePrefix | main.js:12-17 | Prepending events that have no `ts`, or a `ts <= 0`, changes neither the scan nor the time origin. |
| Milestones.ScanNameNoMatch | main.js:24-31 | If no event has the key as its name, the scan returns its starting value unchanged, under either policy. |
| Milestones.ScanNameFirst | main.js:26-30 | With `first` set, the scan returns the `ts` of the earliest event named `key`. |
| Milestones.ScanNameLast | main.js:26-31 | Without `first`, the scan returns the `ts` of the latest event named `key`, whatever value it started from. |
| Milestones.NamedEndsExist | main.js:26-31 | If some event is named `key`, an earliest and a latest such event exist. |
| Milestones.NameValue | main.js:23-35 | It fails with `MilestoneNotFound(key)` when no event is named `key`. It also fails when the chosen event (first or last, by policy) carries `ts == -1`. Otherwise it returns that event's `ts`. |
| Milestones.NameValueAt | main.js:23-35 | For a known first or last match whose `ts` is not `-1`, the lookup returns exactly that event's `ts`. |
| Milestones.FirstPolicyIgnoresLaterEvents | main.js:29 | Under the first-occurrence policy, events appended after a match never change the result. |
| Milestones.LastPolicyIgnoresUnnamedSuffix | main.js:26-31 | Under the last-occurrence policy, appended events without the name never change the result. |
| Milestones.PoliciesPickOppositeEnds | main.js:96-102 | On one stream, the first policy reports the earliest match and the last policy reports the latest. |
| Timing.Elapsed | main.js:105-111 | The duration is defined exactly when the milestone is. Adding it back to the origin gives the milestone. |
| Timing.Metrics | main.js:93-111 | It succeeds exactly when the origin and all three milestone lookups succeed. A missing origin is reported before any milestone error. With an origin but no `firstPaint` event, the error is `MilestoneNotFound("firstPaint")`. |
| Timing.MetricsMeasureFromOrigin | main.js:93-111 | On success, each duration is measured from the first clock-starting event. First paint uses the first `firstPaint` event. The other two use the last first-meaningful-paint and LCP-candidate events. |
| OrderedMap.Empty | main.js:44 | The fresh `requests` object is a well-formed ordered map with no keys. |
| OrderedMap.Put | main.js:51-67 | Property assignment: the key maps to the new value and no other key changes. An existing key keeps its position. A new key is appended. |
| OrderedMap.FilterKeys | main.js:71-75 | The kept keys are exactly the keys whose value passes the test. They keep their original order and stay duplicate-free. |
| OrderedMap.Filter | main.js:71-75 | Deleting the entries that fail the test leaves exactly the passing entries. Their values and relative order are unchanged. |
| OrderedMap.FilterKeysFirst | main.js:77 | The first key left by the filter is the earliest passing key in insertion order. |
| OrderedMap.SubseqDetermined | main.js:71-75 | Two duplicate-free subsequences of a duplicate-free sequence are equal when they hold the same elements. |
| OrderedMap.FilterIsUnique | main.js:71-75 | Filter's contract determines its result: any map meeting that contract is the filter's result. |
| CriticalPath.Send | main.js:50-57 | A send event (re)creates its id's record: `start = ts`, `end = null`, the payload's `url`, `fromCache = false`. It overwrites an existing record in place and leaves every other id's record unchanged. |
| CriticalPath.Respond | main.js:58-61 | A response sets `fromCache` of a known id from the payload and changes nothing else. An unknown id fails with `UnknownRequest`. |
| CriticalPath.Complete | main.js:62-68 | A finish event for an unknown id changes nothing. For a known id it sets `end` to the event's `ts` and changes nothing else. |
| CriticalPath.Step | main.js:50-68 | One iteration fails exactly for a network event without payload, or for a response to an unknown id. Other events leave the records alone. Keys are never removed or reordered. Only the named id's record can change. |
| CriticalPath.Collect | main.js:46-69 | The pass keeps the map well formed. Existing keys keep their order. Every new id comes from a send event that the walk reached, at or before the last event not past the cutoff. |
| CriticalPath.Cleanup | main.js:71-75 | The survivors are exactly the records whose `end` is not `null`. They keep their values and insertion order. |
| CriticalPath.Select | main.js:77-85 | It takes records that have all finished, which is the state after the cleanup. It fails with `NoFinishedRequest` exactly when nothing survived. Otherwise the baseline is the `end` of the first survivor in insertion order. The selected ids are exactly the survivors with `start <= baseline`, boundary included, in insertion order, with their URLs. |
| CriticalPath.CriticalResources | main.js:43-86 | A fault in the pass is the result. On success the survivors are exactly the finished records of the pass. Each of them was created by a send event that the walk reached before the cutoff. |
| CriticalPath.CollectStopsAtCutoff | main.js:46-48 | The first event with `ts > lcpTS` and everything after it, whatever their timestamps, have no effect on the pass. |
| CriticalPath.CriticalResourcesStopAtCutoff | main.js:46-48 | The whole result depends only on the events before the first one past the cutoff. |
| CriticalPath.RecordOrigin | main.js:50-57 | In a completed pass, an id's record holds the `start` and `url` of its last send event. |
| CriticalPath.StepSend | main.js:50-57 | A send event for an id always succeeds and leaves a fresh record for it. |
| CriticalPath.StepOnRecord | main.js:58-68 | For a record the event does not re-create, `start` and `url` never change. Only a finish for it changes `end`, and only a response for it changes `fromCache`. |
| CriticalPath.RecordUpdates | main.js:58-68 | After an id's last send, its `end` is non-null exactly when a finish for it followed, and then holds the last finish's `ts`. Its `fromCache` is the flag of the last response after that send, or false if none came. |
| CriticalPath.RecordFromEvents | main.js:46-69 | For a stream the pass walks to the end, each sent id's whole record is determined by its last send and by the finish and response events after it. |
| CriticalPath.SurvivesIffFinishedAfterLastSend | main.js:46-75 | A request survives the cleanup exactly when a finish event for it came after its last send event. |
| CriticalPath.UnsentHasNoRecord | main.js:46-68 | An id that no visited send event names never gets a record, even when a send for it comes after the cutoff. Finish events for it are ignored. |
| CriticalPath.CollectKeysFollowSends | main.js:46-57 | From any starting object, the pass leaves the starting keys in place and appends each newly sent id once, at its first visited send event. |
| CriticalPath.KeysAreSendOrder | main.js:44-57 | Starting from `{}`, the keys of `requests` are the ids of the visited send events in order of first send. A re-send does not move a key. |
| CriticalPath.SendOrderFromMembers | main.js:46-57 | The send order holds exactly the ids with a visited send event, apart from those already present, and holds each id once. |
| CriticalPath.SendOrderFromPrecedes | main.js:46-57 | If one id is listed before another in the send order, every visited send of the later id comes after some send of the earlier id. |
| CriticalPath.KeysInFirstSendOrder | main.js:44-57 | For any two keys of `requests`, the earlier key was sent before every send of the later key. |
| CriticalPath.BaselineIsEarliestFinished | main.js:71-78 | The baseline is the `end` of the earliest-inserted request that finished. It is not taken from an earlier unfinished request or from a request with a lower `start`. The insertion order it refers to is the order of first visited send events. |

## Left out

- Reading and parsing the trace file (`getData`): the model starts from an
  already parsed list of events.
- Console output, the `try`/`catch` that logs errors, and the async driver
  (`main`): these are I/O. The printed URLs are returned as `Critical.urls`.
- Converting microseconds to seconds: this is floating-point division. The
  durations stay in integer microseconds.
- The commented-out name histogram, and the fact that the call to
  `getCriticalResources` is commented out: the function is modelled on its own.
- The `networkThrottling` metadata that `getMetrics` prints: this is output
  only.
- CriticalPath.CriticalResources: `lcpTS` is an integer. Passing `undefined`
  would make the cutoff test always false, and that case is not modelled.
- Property enumeration order for ids that are canonical array indices (for
  example `"42"`): JS lists those keys first, in numeric order. The model keeps
  pure insertion order. Trace request ids are not such strings.
- Ids that name inherited properties of `Object.prototype` (for example
  `"toString"`): in `getCriticalResources` these pass the `in` test. They are not modelled.
- A payload with `args.data` present but missing one field: the model requires
  `requestId`, `url` and `fromCache` whenever `args.data` is present. Only a
  missing payload as a whole is modelled, and it raises `MissingPayload`.
- Timestamps are integers. Fractional microsecond values are not modelled.
