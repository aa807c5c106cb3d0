/** Values shared by every fail-safe stage: optional values, the exceptions a library call
    can throw, the result of a possibly-failing call, and the FailsafeElement carrier. */
module Failsafe {

  datatype Option<+T> = None | Some(value: T)

  /** The Java exception classes the converters distinguish. Any exception a library call
      throws that is not an IOException is modelled as a RuntimeException. */
  datatype ExceptionKind = IOException | RuntimeException | IllegalArgumentException

  /** A thrown exception: its class, its message (Java allows a null message) and its cause. */
  datatype Exception = Exception(kind: ExceptionKind, message: Option<string>, cause: Option<Exception>)

  /** The outcome of a library call that either returns a value or throws. */
  datatype Result<+T> = Ok(value: T) | Err(error: Exception)

  /** The carrier of a record through a chain of stages: the payload the chain started
      from, the current payload, and the error fields a failing stage fills in. */
  datatype FailsafeElement<+O, +P> = FailsafeElement(
    originalPayload: O,
    payload: P,
    errorMessage: Option<string>,
    stacktrace: Option<string>)
  {
    /** `setErrorMessage`: the same element with its error message replaced. */
    function SetErrorMessage(message: Option<string>): (e: FailsafeElement<O, P>)
      ensures e.errorMessage == message
      ensures e.originalPayload == originalPayload && e.payload == payload && e.stacktrace == stacktrace
    {
      this.(errorMessage := message)
    }

    /** `setStacktrace`: the same element with its stack trace replaced. */
    function SetStacktrace(trace: string): (e: FailsafeElement<O, P>)
      ensures e.stacktrace == Some(trace)
      ensures e.originalPayload == originalPayload && e.payload == payload && e.errorMessage == errorMessage
    {
      this.(stacktrace := Some(trace))
    }
  }

  /** `FailsafeElement.of(original, payload)`: a fresh element without error fields. */
  function Of<O, P>(original: O, payload: P): (e: FailsafeElement<O, P>)
    ensures e.originalPayload == original && e.payload == payload
    ensures e.errorMessage.None? && e.stacktrace.None?
  {
    FailsafeElement(original, payload, None, None)
  }

  /** `FailsafeElement.of(element)`: a copy of every field of `element`. */
  function Copy<O, P>(element: FailsafeElement<O, P>): (c: FailsafeElement<O, P>)
    ensures c == element
  {
    FailsafeElement(element.originalPayload, element.payload, element.errorMessage, element.stacktrace)
  }

  /** The failure annotation every fail-safe stage applies: the exception's message and
      the rendering of its stack trace. */
  function Quarantine<O, P>(element: FailsafeElement<O, P>, e: Exception,
                            stackTrace: Exception -> string): (q: FailsafeElement<O, P>)
    ensures q.originalPayload == element.originalPayload && q.payload == element.payload
    ensures q.errorMessage == e.message && q.stacktrace == Some(stackTrace(e))
  {
    element.SetErrorMessage(e.message).SetStacktrace(stackTrace(e))
  }

  /** The original payloads of a channel of elements, in channel order. */
  function OriginalPayloads<O, P>(xs: seq<FailsafeElement<O, P>>): (os: seq<O>)
    ensures |os| == |xs|
    ensures forall i :: 0 <= i < |xs| ==> os[i] == xs[i].originalPayload
  {
    seq(|xs|, i requires 0 <= i < |xs| => xs[i].originalPayload)
  }

  lemma OriginalPayloadsAppend<O, P>(xs: seq<FailsafeElement<O, P>>, ys: seq<FailsafeElement<O, P>>)
    ensures OriginalPayloads(xs + ys) == OriginalPayloads(xs) + OriginalPayloads(ys)
  {
  }
}
