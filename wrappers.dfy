/**
 * Optional values, the failures the modelled code raises, and a result
 * type that carries either a value or one of those failures.
 */
module Wrappers {

  datatype Option<+T> = None | Some(value: T)

  /** The exceptions of the modelled code, one constructor per cause. */
  datatype Error =
    | BadLength(declared: int)          // a frame's length prefix is negative or above the maximum
    | ShortPayload(declared: int)       // the payload read returned fewer bytes than the prefix announced
    | Underflow                         // fewer than four bytes handed to the integer decoder
    | IllegalArgument                   // a negative socket timeout
    | NegativeArraySize                 // a byte array of negative length
    | IndexOutOfBounds                  // a copy past the end (or before the start) of an array
    | MissingField(key: string)         // a JSON field that is absent or of the wrong kind
    | Malformed                         // a frame that does not parse as a JSON object
    | BadHeader                         // a header or tag that does not match the expected string
    | WrongType(expected: string)       // an RPC message whose "type" is not the expected one
    | NoHandler                         // no handler registered for the (service, method) pair
    | Refused(msg: string)              // the server did not acknowledge the handshake
    | HandlerFailed(msg: string)        // the registered handler threw
    | EndOfStream                       // the peer has nothing more to send
    | Timeout                           // no datagram arrived
    | Stalled                           // a read at end of stream that consumes nothing

  datatype Result<+T> = Ok(value: T) | Err(error: Error) {
    predicate IsFailure() { Err? }

    function PropagateFailure<U>(): Result<U>
      requires Err?
    {
      Err(error)
    }

    function Extract(): T
      requires Ok?
    {
      value
    }
  }

  function Min(a: int, b: int): int { if a <= b then a else b }
}
