/** The parsed trace: a flat, ordered sequence of loosely typed events. */
module Trace {
  import opened Results

  /** The `args.data` payload of the network events the analysis reads. */
  datatype ResourceData = ResourceData(requestId: string, url: string, fromCache: bool)

  /** One entry of `traceEvents`. Every field may be missing from the JSON
      object, so each is optional; `ts` is in integer microseconds. */
  datatype Event = Event(ts: Option<int>, name: Option<string>, data: Option<ResourceData>)

  const SendRequest: string := "ResourceSendRequest"
  const ReceiveResponse: string := "ResourceReceiveResponse"
  const Finish: string := "ResourceFinish"

  /** The event has a `name` key whose value is exactly `key`. */
  predicate Named(e: Event, key: string) {
    e.name == Some(key)
  }
}
