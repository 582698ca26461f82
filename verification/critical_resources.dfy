/** `getCriticalResources`: rebuild per-request records from the network
    events seen before the LCP candidate, keep the finished ones, and select
    those that started no later than the first of them ended. */
module CriticalPath {
  import opened Results
  import opened Trace
  import opened OrderedMap

  /** The `end` field: `null` until a finish event arrives, then that
      event's `ts` (which may be `undefined` when the event has none). */
  datatype End = Pending | Finished(at: Option<int>)

  /** One entry of the `requests` object. */
  datatype Request = Request(start: Option<int>, end: End, url: string, fromCache: bool)

  /** `requests`: request id to record, in insertion order. */
  type Ledger = OMap<Request>

  /** What the function reports: the surviving records, the baseline end
      time, and the ids (with their URLs) of the records it prints. */
  datatype Critical = Critical(
    survivors: Ledger,
    firstEnd: Option<int>,
    selected: seq<string>,
    urls: seq<string>)

  /** The event's `ts` exceeds the cutoff; a missing `ts` never does. */
  predicate PastCutoff(e: Event, lcp: int) {
    e.ts.Some? && e.ts.value > lcp
  }

  /** JS `a <= b` on timestamps that may be `undefined`: false unless both are numbers. */
  predicate AtOrBefore(a: Option<int>, b: Option<int>) {
    a.Some? && b.Some? && a.value <= b.value
  }

  /** The three event names the pass reacts to. */
  predicate IsNetworkEvent(e: Event) {
    Named(e, SendRequest) || Named(e, ReceiveResponse) || Named(e, Finish)
  }

  /** The event is a send event for request `id`. */
  predicate SendsFor(e: Event, id: string) {
    Named(e, SendRequest) && e.data.Some? && e.data.value.requestId == id
  }

  /** The event is a finish event for request `id`. */
  predicate FinishesFor(e: Event, id: string) {
    Named(e, Finish) && e.data.Some? && e.data.value.requestId == id
  }

  /** The event is a response event for request `id`. */
  predicate RespondsFor(e: Event, id: string) {
    Named(e, ReceiveResponse) && e.data.Some? && e.data.value.requestId == id
  }

  /** Every record other than `id`'s is the same in both ledgers. */
  ghost predicate OnlyChanges(before: Ledger, after: Ledger, id: string) {
    forall x | x != id ::
      && (x in after.vals <==> x in before.vals)
      && (x in before.vals ==> after.vals[x] == before.vals[x])
  }

  /** A send event (re)creates the record for its id, overwriting any earlier
      one in place: started now, not finished, not from cache. */
  function Send(ledger: Ledger, ts: Option<int>, d: ResourceData): (r: Ledger)
    requires Valid(ledger)
    ensures Valid(r)
    ensures d.requestId in r.vals && r.vals[d.requestId] == Request(ts, Pending, d.url, false)
    ensures OnlyChanges(ledger, r, d.requestId)
    ensures ledger.keys <= r.keys
    ensures d.requestId in ledger.vals <==> r.keys == ledger.keys
  {
    Put(ledger, d.requestId, Request(ts, Pending, d.url, false))
  }

  /** A response event copies `fromCache` onto the record of a known id; for
      an unknown id the code dereferences `undefined` and throws. */
  function Respond(ledger: Ledger, d: ResourceData): (r: Result<Ledger>)
    requires Valid(ledger)
    ensures r.Err? <==> d.requestId !in ledger.vals
    ensures r.Err? ==> r.error == UnknownRequest(d.requestId)
    ensures r.Ok? ==> && Valid(r.value)
                      && r.value.keys == ledger.keys
                      && r.value.vals[d.requestId] == ledger.vals[d.requestId].(fromCache := d.fromCache)
                      && OnlyChanges(ledger, r.value, d.requestId)
  {
    if d.requestId in ledger.vals then
      Ok(Put(ledger, d.requestId, ledger.vals[d.requestId].(fromCache := d.fromCache)))
    else
      Err(UnknownRequest(d.requestId))
  }

  /** A finish event stamps `end` on the record of a known id and is ignored
      for an unknown one. */
  function Complete(ledger: Ledger, ts: Option<int>, d: ResourceData): (r: Ledger)
    requires Valid(ledger)
    ensures Valid(r)
    ensures r.keys == ledger.keys
    ensures d.requestId !in ledger.vals ==> r == ledger
    ensures d.requestId in ledger.vals ==> r.vals[d.requestId] == ledger.vals[d.requestId].(end := Finished(ts))
    ensures OnlyChanges(ledger, r, d.requestId)
  {
    if d.requestId in ledger.vals then
      Put(ledger, d.requestId, ledger.vals[d.requestId].(end := Finished(ts)))
    else
      ledger
  }

  /** One iteration of the pass. Network events without an `args.data`
      payload throw, as does a response for an unknown id;
      every other event leaves the ledger alone. */
  function Step(ledger: Ledger, e: Event): (r: Result<Ledger>)
    requires Valid(ledger)
    ensures r.Ok? ==> Valid(r.value) && ledger.keys <= r.value.keys
    ensures r.Err? <==>
              IsNetworkEvent(e) &&
              (e.data.None? || (Named(e, ReceiveResponse) && e.data.value.requestId !in ledger.vals))
    ensures !IsNetworkEvent(e) ==> r == Ok(ledger)
    ensures r.Ok? && e.data.Some? ==> OnlyChanges(ledger, r.value, e.data.value.requestId)
  {
    if Named(e, SendRequest) then
      match e.data
      case None => Err(MissingPayload(SendRequest))
      case Some(d) => Ok(Send(ledger, e.ts, d))
    else if Named(e, ReceiveResponse) then
      match e.data
      case None => Err(MissingPayload(ReceiveResponse))
      case Some(d) => Respond(ledger, d)
    else if Named(e, Finish) then
      match e.data
      case None => Err(MissingPayload(Finish))
      case Some(d) => Ok(Complete(ledger, e.ts, d))
    else
      Ok(ledger)
  }

  /** Position `i` exists and the walk reaches it: neither it nor any event
      before it is past the cutoff. */
  ghost predicate Visited(events: seq<Event>, lcp: int, i: int) {
    && 0 <= i < |events|
    && forall j | 0 <= j <= i :: !PastCutoff(events[j], lcp)
  }

  /** The forward pass: apply `Step` to each event until the first one past
      the cutoff, which ends the walk. Records are only ever added or updated
      in place, and each new id comes from a send event that was visited. */
  function Collect(events: seq<Event>, lcp: int, ledger: Ledger): (r: Result<Ledger>)
    requires Valid(ledger)
    ensures r.Ok? ==> Valid(r.value) && ledger.keys <= r.value.keys
    ensures r.Ok? ==> forall id | id in r.value.vals && id !in ledger.vals ::
              exists i | Visited(events, lcp, i) :: SendsFor(events[i], id)
    decreases |events|
  {
    if |events| == 0 || PastCutoff(events[0], lcp) then Ok(ledger)
    else
      match Step(ledger, events[0])
      case Err(e) => Err(e)
      case Ok(next) =>
        var r := Collect(events[1..], lcp, next);
        assert r.Ok? ==> forall id | id in r.value.vals && id !in ledger.vals ::
                 exists i | Visited(events, lcp, i) :: SendsFor(events[i], id) by {
          if r.Ok? {
            forall id | id in r.value.vals && id !in ledger.vals
              ensures exists i | Visited(events, lcp, i) :: SendsFor(events[i], id)
            {
              if id in next.vals {
                assert Visited(events, lcp, 0) && SendsFor(events[0], id);
              } else {
                var i :| Visited(events[1..], lcp, i) && SendsFor(events[1..][i], id);
                assert Visited(events, lcp, i + 1) by {
                  forall j | 0 <= j <= i + 1 ensures !PastCutoff(events[j], lcp) {
                    if j > 0 {
                      assert events[j] == events[1..][j - 1];
                    }
                  }
                }
                assert SendsFor(events[i + 1], id);
              }
            }
          }
        }
        r
  }

  predicate IsFinished(q: Request) {
    q.end.Finished?
  }

  /** The cleanup loop: drop every record whose `end` is still `null`. */
  function Cleanup(ledger: Ledger): (r: Ledger)
    requires Valid(ledger)
    ensures Valid(r)
    ensures forall id :: id in r.vals <==> id in ledger.vals && ledger.vals[id].end.Finished?
    ensures forall id | id in r.vals :: r.vals[id] == ledger.vals[id]
    ensures Subseq(r.keys, ledger.keys)
  {
    Filter(ledger, IsFinished)
  }

  /** The selection after cleanup: the baseline is the `end` of the first
      remaining key in insertion order, and every record whose `start` is at
      or before it is reported, in insertion order. With nothing left the
      code reads a field of `undefined` and throws. */
  function Select(survivors: Ledger): (r: Result<Critical>)
    requires Valid(survivors)
    requires forall id | id in survivors.vals :: survivors.vals[id].end.Finished?
    ensures r.Err? <==> |survivors.keys| == 0
    ensures r.Err? ==> r.error == NoFinishedRequest
    ensures r.Ok? ==> r.value.survivors == survivors
    ensures r.Ok? ==> r.value.firstEnd == survivors.vals[survivors.keys[0]].end.at
    ensures r.Ok? ==> forall id :: id in r.value.selected <==>
              id in survivors.vals && AtOrBefore(survivors.vals[id].start, r.value.firstEnd)
    ensures r.Ok? ==> Distinct(r.value.selected) && Subseq(r.value.selected, survivors.keys)
    ensures r.Ok? ==> |r.value.urls| == |r.value.selected|
    ensures r.Ok? ==> forall i | 0 <= i < |r.value.selected| ::
              r.value.selected[i] in survivors.vals && r.value.urls[i] == survivors.vals[r.value.selected[i]].url
  {
    if |survivors.keys| == 0 then Err(NoFinishedRequest)
    else
      var firstEnd := survivors.vals[survivors.keys[0]].end.at;
      var selected := FilterKeys(survivors.keys, survivors.vals, (q: Request) => AtOrBefore(q.start, firstEnd));
      var urls := seq(|selected|, i requires 0 <= i < |selected| => survivors.vals[selected[i]].url);
      Ok(Critical(survivors, firstEnd, selected, urls))
  }

  /** `getCriticalResources` without its logging: the pass, the cleanup and
      the selection, failing with the first fault any of them raises. */
  function CriticalResources(events: seq<Event>, lcp: int): (r: Result<Critical>)
    ensures Collect(events, lcp, Empty()).Err? ==> r == Err(Collect(events, lcp, Empty()).error)
    ensures r.Ok? ==> Collect(events, lcp, Empty()).Ok?
    ensures r.Ok? ==> var collected := Collect(events, lcp, Empty()).value;
              forall id :: id in r.value.survivors.vals <==>
                id in collected.vals && collected.vals[id].end.Finished?
    ensures r.Ok? ==> forall id | id in r.value.survivors.vals ::
              exists i | Visited(events, lcp, i) :: SendsFor(events[i], id)
  {
    var collected :- Collect(events, lcp, Empty());
    Select(Cleanup(collected))
  }

  /** The walk stops at the first event past the cutoff: that event and every
      later one, whatever its timestamp, have no effect. */
  lemma {:induction false} CollectStopsAtCutoff(prefix: seq<Event>, e: Event, rest: seq<Event>, lcp: int, ledger: Ledger)
    requires Valid(ledger)
    requires PastCutoff(e, lcp)
    ensures Collect(prefix + [e] + rest, lcp, ledger) == Collect(prefix, lcp, ledger)
  {
    var events := prefix + [e] + rest;
    if |prefix| == 0 {
      assert events[0] == e;
    } else {
      assert events[0] == prefix[0];
      assert events[1..] == prefix[1..] + [e] + rest;
      if !PastCutoff(prefix[0], lcp) {
        match Step(ledger, prefix[0])
        case Err(_) =>
        case Ok(next) => CollectStopsAtCutoff(prefix[1..], e, rest, lcp, next);
      }
    }
  }

  /** Consequently the whole result depends only on the events before the
      first one past the cutoff. */
  lemma CriticalResourcesStopAtCutoff(prefix: seq<Event>, e: Event, rest: seq<Event>, lcp: int)
    requires PastCutoff(e, lcp)
    ensures CriticalResources(prefix + [e] + rest, lcp) == CriticalResources(prefix, lcp)
  {
    CollectStopsAtCutoff(prefix, e, rest, lcp, Empty());
  }

  // ---------------------------------------------------------------------
  // Records in terms of the events that built them
  // ---------------------------------------------------------------------

  /** No event of the stream is past the cutoff, so the walk visits all of it. */
  ghost predicate WithinCutoff(events: seq<Event>, lcp: int) {
    forall i | 0 <= i < |events| :: !PastCutoff(events[i], lcp)
  }

  /** Position `s` holds the last send event for `id`. */
  ghost predicate IsLastSend(events: seq<Event>, id: string, s: int) {
    && 0 <= s < |events|
    && SendsFor(events[s], id)
    && forall j | s < j < |events| :: !SendsFor(events[j], id)
  }

  /** Position `f`, after `s`, holds the last finish event for `id`. */
  ghost predicate IsLastFinishAfter(events: seq<Event>, id: string, s: int, f: int) {
    && 0 <= s < f < |events|
    && FinishesFor(events[f], id)
    && forall j | f < j < |events| :: !FinishesFor(events[j], id)
  }

  /** Position `c`, after `s`, holds the last response event for `id`. */
  ghost predicate IsLastResponseAfter(events: seq<Event>, id: string, s: int, c: int) {
    && 0 <= s < c < |events|
    && RespondsFor(events[c], id)
    && forall j | c < j < |events| :: !RespondsFor(events[j], id)
  }

  /** Appending one event inside the cutoff applies one more `Step`. */
  lemma {:induction false} CollectSnoc(events: seq<Event>, e: Event, lcp: int, ledger: Ledger)
    requires Valid(ledger)
    requires WithinCutoff(events, lcp) && !PastCutoff(e, lcp)
    ensures Collect(events + [e], lcp, ledger) ==
              match Collect(events, lcp, ledger)
              case Err(x) => Err(x)
              case Ok(m) => Step(m, e)
  {
    if |events| == 0 {
      assert events + [e] == [e];
      assert [e][1..] == [];
    } else {
      assert (events + [e])[0] == events[0];
      assert (events + [e])[1..] == events[1..] + [e];
      match Step(ledger, events[0])
      case Err(_) =>
      case Ok(next) =>
        assert WithinCutoff(events[1..], lcp) by {
          forall i | 0 <= i < |events[1..]| ensures !PastCutoff(events[1..][i], lcp) {
            assert events[1..][i] == events[i + 1];
          }
        }
        CollectSnoc(events[1..], e, lcp, next);
    }
  }

  /** The same pass read from the other end: the steps of all but the last
      event, then the last one. It agrees with `Collect` on a stream that
      stays within the cutoff. */
  ghost function Replay(events: seq<Event>, ledger: Ledger): (r: Result<Ledger>)
    requires Valid(ledger)
    ensures r.Ok? ==> Valid(r.value)
    decreases |events|
  {
    if |events| == 0 then Ok(ledger)
    else
      match Replay(events[..|events| - 1], ledger)
      case Err(x) => Err(x)
      case Ok(m) => Step(m, events[|events| - 1])
  }

  lemma {:induction false} CollectIsReplay(events: seq<Event>, lcp: int, ledger: Ledger)
    requires Valid(ledger)
    requires WithinCutoff(events, lcp)
    ensures Collect(events, lcp, ledger) == Replay(events, ledger)
  {
    if |events| > 0 {
      var n := |events| - 1;
      var init := events[..n];
      assert events == init + [events[n]];
      assert WithinCutoff(init, lcp) by {
        forall i | 0 <= i < |init| ensures !PastCutoff(init[i], lcp) {
          assert init[i] == events[i];
        }
      }
      CollectSnoc(init, events[n], lcp, ledger);
      CollectIsReplay(init, lcp, ledger);
    }
  }

  /** The record the pass holds for `id` was created by its last send event:
      `start` and `url` come from that event. */
  lemma {:induction false} RecordOrigin(events: seq<Event>, ledger: Ledger, id: string, s: int)
    requires Valid(ledger)
    requires Replay(events, ledger).Ok?
    requires IsLastSend(events, id, s)
    ensures var led := Replay(events, ledger).value;
      && id in led.vals
      && led.vals[id].start == events[s].ts
      && led.vals[id].url == events[s].data.value.url
  {
    var n := |events| - 1;
    var init := events[..n];
    var prev := Replay(init, ledger).value;
    if s < n {
      assert IsLastSend(init, id, s);
      RecordOrigin(init, ledger, id, s);
      StepOnRecord(prev, events[n], id);
    } else {
      StepSend(prev, events[n], id);
    }
  }

  /** A send event for `id` leaves a fresh record for it. */
  lemma StepSend(prev: Ledger, e: Event, id: string)
    requires Valid(prev)
    requires SendsFor(e, id)
    ensures Step(prev, e).Ok?
    ensures id in Step(prev, e).value.vals
    ensures Step(prev, e).value.vals[id] == Request(e.ts, Pending, e.data.value.url, false)
  {
  }

  /** The effect of one step on a record the event does not re-create: only
      a finish event for it changes `end` and only a response event for it
      changes `fromCache`; `start` and `url` never change. */
  lemma StepOnRecord(prev: Ledger, e: Event, id: string)
    requires Valid(prev)
    requires Step(prev, e).Ok?
    requires id in prev.vals
    requires !SendsFor(e, id)
    ensures id in Step(prev, e).value.vals
    ensures Step(prev, e).value.vals[id].start == prev.vals[id].start
    ensures Step(prev, e).value.vals[id].url == prev.vals[id].url
    ensures Step(prev, e).value.vals[id].end ==
              if FinishesFor(e, id) then Finished(e.ts) else prev.vals[id].end
    ensures Step(prev, e).value.vals[id].fromCache ==
              if RespondsFor(e, id) then e.data.value.fromCache else prev.vals[id].fromCache
  {
  }

  /** `end` is what the finish events for `id` after position `s` make it:
      finished exactly when one exists, with the `ts` of the last one. */
  ghost predicate EndFollows(events: seq<Event>, id: string, s: int, end: End) {
    && (end.Finished? <==> exists f | 0 <= f < |events| && s < f :: FinishesFor(events[f], id))
    && (forall f | IsLastFinishAfter(events, id, s, f) :: end == Finished(events[f].ts))
  }

  /** `fromCache` is what the response events for `id` after position `s`
      make it: the flag of the last one, or false when there is none. */
  ghost predicate CacheFollows(events: seq<Event>, id: string, s: int, fromCache: bool) {
    && ((forall c | 0 <= c < |events| && s < c :: !RespondsFor(events[c], id)) ==> !fromCache)
    && (forall c | IsLastResponseAfter(events, id, s, c) :: fromCache == events[c].data.value.fromCache)
  }

  /** One more event keeps `EndFollows`, given how a step updates `end`. */
  lemma EndFollowsSnoc(init: seq<Event>, e: Event, id: string, s: int, prev: End)
    requires 0 <= s < |init|
    requires EndFollows(init, id, s, prev)
    ensures EndFollows(init + [e], id, s, if FinishesFor(e, id) then Finished(e.ts) else prev)
  {
    var events := init + [e];
    var n := |init|;
    assert events[n] == e;
    if FinishesFor(e, id) {
      forall f | IsLastFinishAfter(events, id, s, f)
        ensures Finished(e.ts) == Finished(events[f].ts)
      {
      }
    } else {
      forall f | IsLastFinishAfter(events, id, s, f)
        ensures prev == Finished(events[f].ts)
      {
        assert f != n;
        forall j | f <= j < |init| ensures init[j] == events[j] {}
        assert IsLastFinishAfter(init, id, s, f);
      }
      if exists f | 0 <= f < |events| && s < f :: FinishesFor(events[f], id) {
        var f :| 0 <= f < |events| && s < f && FinishesFor(events[f], id);
        assert f != n;
        assert init[f] == events[f];
      }
      if exists f | 0 <= f < |init| && s < f :: FinishesFor(init[f], id) {
        var f :| 0 <= f < |init| && s < f && FinishesFor(init[f], id);
        assert events[f] == init[f];
      }
    }
  }

  /** One more event keeps `CacheFollows`, given how a step updates `fromCache`. */
  lemma CacheFollowsSnoc(init: seq<Event>, e: Event, id: string, s: int, prev: bool)
    requires 0 <= s < |init|
    requires CacheFollows(init, id, s, prev)
    ensures CacheFollows(init + [e], id, s, if RespondsFor(e, id) then e.data.value.fromCache else prev)
  {
    var events := init + [e];
    var n := |init|;
    assert events[n] == e;
    if RespondsFor(e, id) {
      forall c | IsLastResponseAfter(events, id, s, c)
        ensures e.data.value.fromCache == events[c].data.value.fromCache
      {
      }
    } else {
      forall c | IsLastResponseAfter(events, id, s, c)
        ensures prev == events[c].data.value.fromCache
      {
        assert c != n;
        forall j | c <= j < |init| ensures init[j] == events[j] {}
        assert IsLastResponseAfter(init, id, s, c);
      }
      if forall c | 0 <= c < |events| && s < c :: !RespondsFor(events[c], id) {
        forall c | 0 <= c < |init| && s < c ensures !RespondsFor(init[c], id) {
          assert init[c] == events[c];
        }
      }
    }
  }

  /** After its last send, a record is finished exactly when a finish event
      for it followed, and then carries the `ts` of the last such event; its
      `fromCache` is the flag of the last response after the send, or false
      when none followed. */
  lemma {:induction false} RecordUpdates(events: seq<Event>, ledger: Ledger, id: string, s: int)
    requires Valid(ledger)
    requires Replay(events, ledger).Ok?
    requires IsLastSend(events, id, s)
    ensures id in Replay(events, ledger).value.vals
    ensures EndFollows(events, id, s, Replay(events, ledger).value.vals[id].end)
    ensures CacheFollows(events, id, s, Replay(events, ledger).value.vals[id].fromCache)
  {
    RecordOrigin(events, ledger, id, s);
    var n := |events| - 1;
    var init := events[..n];
    var e := events[n];
    assert events == init + [e];
    var prev := Replay(init, ledger).value;
    if s < n {
      assert IsLastSend(init, id, s);
      RecordUpdates(init, ledger, id, s);
      StepOnRecord(prev, e, id);
      EndFollowsSnoc(init, e, id, s, prev.vals[id].end);
      CacheFollowsSnoc(init, e, id, s, prev.vals[id].fromCache);
    } else {
      StepSend(prev, e, id);
    }
  }

  /** The pass, for a stream it walks to the end without a fault: each sent
      id's record comes from its last send event and the finish and response
      events after it. */
  lemma RecordFromEvents(events: seq<Event>, lcp: int, id: string, s: int)
    requires WithinCutoff(events, lcp)
    requires Collect(events, lcp, Empty()).Ok?
    requires IsLastSend(events, id, s)
    ensures var led := Collect(events, lcp, Empty()).value;
      && id in led.vals
      && led.vals[id].start == events[s].ts
      && led.vals[id].url == events[s].data.value.url
      && EndFollows(events, id, s, led.vals[id].end)
      && CacheFollows(events, id, s, led.vals[id].fromCache)
  {
    CollectIsReplay(events, lcp, Empty());
    RecordOrigin(events, Empty(), id, s);
    RecordUpdates(events, Empty(), id, s);
  }

  /** A request survives the cleanup exactly when a finish event for it came
      after its last send event; an id that was never sent has no record. */
  lemma SurvivesIffFinishedAfterLastSend(events: seq<Event>, lcp: int, id: string, s: int)
    requires WithinCutoff(events, lcp)
    requires Collect(events, lcp, Empty()).Ok?
    requires IsLastSend(events, id, s)
    ensures id in Cleanup(Collect(events, lcp, Empty()).value).vals <==>
              exists f | 0 <= f < |events| && s < f :: FinishesFor(events[f], id)
  {
    RecordFromEvents(events, lcp, id, s);
  }

  /** An id no visited send event names never gets a record. */
  lemma UnsentHasNoRecord(events: seq<Event>, lcp: int, id: string)
    requires Collect(events, lcp, Empty()).Ok?
    requires forall i | Visited(events, lcp, i) :: !SendsFor(events[i], id)
    ensures id !in Collect(events, lcp, Empty()).value.vals
  {
  }

  // ---------------------------------------------------------------------
  // Insertion order in terms of the events
  // ---------------------------------------------------------------------

  /** The ids of the visited send events, each listed once, at its first send
      and skipping the ids already in `seen`. */
  ghost function SendOrderFrom(events: seq<Event>, lcp: int, seen: seq<string>): seq<string>
    decreases |events|
  {
    if |events| == 0 || PastCutoff(events[0], lcp) then []
    else if Named(events[0], SendRequest) && events[0].data.Some?
            && events[0].data.value.requestId !in seen then
      var id := events[0].data.value.requestId;
      [id] + SendOrderFrom(events[1..], lcp, seen + [id])
    else
      SendOrderFrom(events[1..], lcp, seen)
  }

  /** The ids of the visited send events in order of first send. */
  ghost function SendOrder(events: seq<Event>, lcp: int): seq<string> {
    SendOrderFrom(events, lcp, [])
  }

  /** How one step changes the key order: a send for a new id appends it,
      every other successful step keeps the keys as they are. */
  lemma StepKeys(prev: Ledger, e: Event)
    requires Valid(prev)
    requires Step(prev, e).Ok?
    ensures Step(prev, e).value.keys ==
              if Named(e, SendRequest) && e.data.Some? && e.data.value.requestId !in prev.keys
              then prev.keys + [e.data.value.requestId]
              else prev.keys
  {
  }

  /** The pass appends keys in order of first send: the ledger's keys are
      the starting keys followed by the newly sent ids, each at its first
      visited send. */
  lemma {:induction false} CollectKeysFollowSends(events: seq<Event>, lcp: int, ledger: Ledger)
    requires Valid(ledger)
    requires Collect(events, lcp, ledger).Ok?
    ensures Collect(events, lcp, ledger).value.keys == ledger.keys + SendOrderFrom(events, lcp, ledger.keys)
    decreases |events|
  {
    if |events| == 0 || PastCutoff(events[0], lcp) {
      assert ledger.keys + [] == ledger.keys;
    } else {
      var next := Step(ledger, events[0]).value;
      StepKeys(ledger, events[0]);
      CollectKeysFollowSends(events[1..], lcp, next);
    }
  }

  /** Starting from `{}`, the keys are exactly the send order. */
  lemma KeysAreSendOrder(events: seq<Event>, lcp: int)
    requires Collect(events, lcp, Empty()).Ok?
    ensures Collect(events, lcp, Empty()).value.keys == SendOrder(events, lcp)
  {
    CollectKeysFollowSends(events, lcp, Empty());
  }

  /** The send order lists each id with a visited send event, except those
      already seen, and lists each once. */
  lemma {:induction false} SendOrderFromMembers(events: seq<Event>, lcp: int, seen: seq<string>)
    ensures forall id :: id in SendOrderFrom(events, lcp, seen) <==>
              id !in seen && exists i | Visited(events, lcp, i) :: SendsFor(events[i], id)
    ensures Distinct(seen) ==> Distinct(seen + SendOrderFrom(events, lcp, seen))
    decreases |events|
  {
    if |events| == 0 || PastCutoff(events[0], lcp) {
      assert seen + [] == seen;
    } else {
      var e := events[0];
      var rest := events[1..];
      var seen' := if Named(e, SendRequest) && e.data.Some? && e.data.value.requestId !in seen
                   then seen + [e.data.value.requestId] else seen;
      SendOrderFromMembers(rest, lcp, seen');
      assert seen + SendOrderFrom(events, lcp, seen) == seen' + SendOrderFrom(rest, lcp, seen');
      forall id ensures
        (exists i | Visited(events, lcp, i) :: SendsFor(events[i], id)) <==>
        SendsFor(e, id) || exists i | Visited(rest, lcp, i) :: SendsFor(rest[i], id)
      {
        if exists i | Visited(events, lcp, i) :: SendsFor(events[i], id) {
          var i :| Visited(events, lcp, i) && SendsFor(events[i], id);
          if i > 0 {
            assert Visited(rest, lcp, i - 1) by {
              forall j | 0 <= j <= i - 1 ensures !PastCutoff(rest[j], lcp) {
                assert rest[j] == events[j + 1];
              }
            }
            assert SendsFor(rest[i - 1], id);
          }
        }
        if exists i | Visited(rest, lcp, i) :: SendsFor(rest[i], id) {
          var i :| Visited(rest, lcp, i) && SendsFor(rest[i], id);
          assert Visited(events, lcp, i + 1) by {
            forall j | 0 <= j <= i + 1 ensures !PastCutoff(events[j], lcp) {
              if j > 0 {
                assert events[j] == rest[j - 1];
              }
            }
          }
          assert SendsFor(events[i + 1], id);
        }
        assert SendsFor(e, id) ==> Visited(events, lcp, 0);
      }
    }
  }

  /** The send order is the order of first sends: every visited send of a
      later-listed id is preceded by a send of each earlier-listed id. */
  lemma {:induction false} SendOrderFromPrecedes(events: seq<Event>, lcp: int, seen: seq<string>, a: int, b: int, i: int)
    requires 0 <= a < b < |SendOrderFrom(events, lcp, seen)|
    requires Visited(events, lcp, i) && SendsFor(events[i], SendOrderFrom(events, lcp, seen)[b])
    ensures exists j | 0 <= j < i :: SendsFor(events[j], SendOrderFrom(events, lcp, seen)[a])
    decreases |events|
  {
    var order := SendOrderFrom(events, lcp, seen);
    var e := events[0];
    var rest := events[1..];
    var emits := Named(e, SendRequest) && e.data.Some? && e.data.value.requestId !in seen;
    var seen' := if emits then seen + [e.data.value.requestId] else seen;
    var later := SendOrderFrom(rest, lcp, seen');
    SendOrderFromMembers(events, lcp, seen);
    SendOrderFromMembers(rest, lcp, seen');
    assert order[b] in order;
    assert i != 0 by {
      if emits {
        assert order == [e.data.value.requestId] + later;
        assert order[b] == later[b - 1] && later[b - 1] in later;
      }
    }
    assert Visited(rest, lcp, i - 1) by {
      forall j | 0 <= j <= i - 1 ensures !PastCutoff(rest[j], lcp) {
        assert rest[j] == events[j + 1];
      }
    }
    assert rest[i - 1] == events[i];
    if emits {
      assert order == [e.data.value.requestId] + later;
      if a == 0 {
        assert SendsFor(events[0], order[a]);
      } else {
        SendOrderFromPrecedes(rest, lcp, seen', a - 1, b - 1, i - 1);
        var j :| 0 <= j < i - 1 && SendsFor(rest[j], later[a - 1]);
        assert SendsFor(events[j + 1], order[a]);
      }
    } else {
      assert order == later;
      SendOrderFromPrecedes(rest, lcp, seen', a, b, i - 1);
      var j :| 0 <= j < i - 1 && SendsFor(rest[j], later[a]);
      assert SendsFor(events[j + 1], order[a]);
    }
  }

  /** Of two keys, the earlier-inserted one was sent before every send of the
      later one. */
  lemma KeysInFirstSendOrder(events: seq<Event>, lcp: int, a: int, b: int, i: int)
    requires Collect(events, lcp, Empty()).Ok?
    requires var keys := Collect(events, lcp, Empty()).value.keys;
      0 <= a < b < |keys| && Visited(events, lcp, i) && SendsFor(events[i], keys[b])
    ensures var keys := Collect(events, lcp, Empty()).value.keys;
      exists j | 0 <= j < i :: SendsFor(events[j], keys[a])
  {
    KeysAreSendOrder(events, lcp);
    SendOrderFromPrecedes(events, lcp, [], a, b, i);
  }

  /** The baseline is the `end` of the request inserted earliest among those
      that finished: a request sent earlier but never finished does not
      count, and neither does a finished request inserted later that started
      sooner. */
  lemma BaselineIsEarliestFinished(events: seq<Event>, lcp: int, i: int)
    requires Collect(events, lcp, Empty()).Ok?
    requires var led := Collect(events, lcp, Empty()).value;
      IsFirstKept(led.keys, led.vals, IsFinished, i)
    ensures CriticalResources(events, lcp).Ok?
    ensures var led := Collect(events, lcp, Empty()).value;
      CriticalResources(events, lcp).value.firstEnd == led.vals[led.keys[i]].end.at
    ensures Collect(events, lcp, Empty()).value.keys == SendOrder(events, lcp)
  {
    KeysAreSendOrder(events, lcp);
    var led := Collect(events, lcp, Empty()).value;
    FilterKeysFirst(led.keys, led.vals, IsFinished, i);
  }
}
