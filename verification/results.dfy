/** Failure-compatible wrappers used across the model.

    The analysed program signals failure by throwing (an explicit `Error`
    or a `TypeError` from reading a property of `undefined`); the model
    returns an `Err` carrying which of those faults happened instead. */
module Results {

  /** A value that may be absent: a JSON key that is missing, or a JS `undefined`. */
  datatype Option<+T> = None | Some(value: T)

  /** The faults the analysis can raise. */
  datatype Error =
    /** No event carries a strictly positive timestamp. */
    | MissingInitTimestamp
    /** A named milestone scan ended on the sentinel `-1`. */
    | MilestoneNotFound(key: string)
    /** A resource event without the `args.data` payload it dereferences. */
    | MissingPayload(eventName: string)
    /** A response event for a request id that was never sent. */
    | UnknownRequest(requestId: string)
    /** No request finished inside the window, so there is no first key to read. */
    | NoFinishedRequest

  datatype Result<+T> = Ok(value: T) | Err(error: Error) {

    predicate IsFailure() {
      Err?
    }

    function PropagateFailure<U>(): Result<U>
      requires Err?
    {
      Err(error)
    }

    function Extract(): T
      requires Ok?
    {
      value
    }
  }
}
