/** The optional and failure-carrying values shared by all modules. */
module Wrappers {
  datatype Option<+T> = None | Some(value: T)

  datatype Result<+T, +E> = Ok(value: T) | Err(error: E)

  /** Why a call failed on its way. */
  datatype Cause =
    | SessionExpired
    | SessionMoved
    | NetError(timeout: bool, temporary: bool)
    | OtherCause(code: int)

  /** The server's error codes, the refusals of the path checks, and calls that failed on the way. */
  datatype Error =
    | NoNode
    | NodeExists
    | NotEmpty
    | BadVersion
    | BadArguments
    | InvalidPath
    | CounterExhausted
    | Fault(cause: Cause)

  function Least(a: nat, b: nat): nat {
    if a < b then a else b
  }

  lemma Associative<T>(a: seq<T>, b: seq<T>, c: seq<T>)
    ensures (a + b) + c == a + (b + c)
  {
  }
}
