/** The error record of the library (`RpcError`) and the values a handler,
    a validator or a built-in can throw. */
module Errors {
  import opened Wrappers

  /** The `options` argument of the `RpcError` constructor; the standard
      `cause` option is not part of this model. */
  datatype RpcErrorOptions = RpcErrorOptions(status: Option<int>)

  /** An `RpcError`: the message of its base `Error` and its optional
      status.  Being a datatype value, it never changes after construction,
      as the readonly `status` field promises. */
  datatype RpcError = RpcError(message: string, status: Option<int>)

  /** `new RpcError(message, options)`: an absent message is the empty
      message of a plain `Error`, the status is `options?.status`. */
  function NewRpcError(message: Option<string>, options: Option<RpcErrorOptions>): RpcError {
    RpcError(
      message.GetOr(""),
      match options case None => None case Some(o) => o.status)
  }

  /** A thrown value.  `SyntaxError` is what `JSON.parse` throws and
      `TypeError` what the Request constructor throws; the engine's wording of
      their messages is not modelled. */
  datatype Thrown =
    | PlainError(message: string)
    | SyntaxError
    | TypeError
    | Rpc(error: RpcError)
    | NonError

  /** `new Error(message)`. */
  function NewError(message: Option<string>): Thrown {
    PlainError(message.GetOr(""))
  }

  /** `instanceof Error`. */
  predicate IsError(t: Thrown) {
    !t.NonError?
  }

  /** `instanceof RpcError`. */
  predicate IsRpcError(t: Thrown) {
    t.Rpc?
  }

  /** The status is the one supplied in `options`. */
  lemma StatusSupplied(message: Option<string>, status: int)
    ensures NewRpcError(message, Some(RpcErrorOptions(Some(status)))).status == Some(status)
  {
  }

  /** Without `options`, or without `options.status`, there is no status. */
  lemma StatusOmitted(message: Option<string>, options: Option<RpcErrorOptions>)
    requires options.None? || options.value.status.None?
    ensures NewRpcError(message, options).status.None?
  {
  }

  /** The message reaches the base `Error` unchanged; an absent one is empty. */
  lemma MessagePassedThrough(message: Option<string>, options: Option<RpcErrorOptions>)
    ensures message.Some? ==> NewRpcError(message, options).message == message.value
    ensures message.None? ==> NewRpcError(message, options).message == ""
  {
  }

  /** Every `RpcError` is an `Error`; a plain `Error` is not an `RpcError`. */
  lemma InstanceChecks(e: RpcError, message: Option<string>)
    ensures IsRpcError(Rpc(e)) && IsError(Rpc(e))
    ensures IsError(NewError(message)) && !IsRpcError(NewError(message))
  {
  }
}
