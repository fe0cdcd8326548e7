/** The stable error kinds and the JSON-RPC codes they are answered with. */
module Errors {
  import opened Wrappers

  datatype ErrorKind =
    | Validation
    | Authentication
    | Connection
    | Operation
    | Unsupported
    | Cancelled
    | Protocol
    | PluginCrash

  const ERR_INVALID_REQUEST := -32600
  const ERR_METHOD_NOT_FOUND := -32601
  const ERR_INVALID_PARAMS := -32602
  const ERR_INTERNAL := -32603
  const ERR_CANCELED := -32800

  /** A handler error; message and guidance text are not modelled. */
  datatype ServiceError = ServiceError(code: Option<int>, kind: ErrorKind) {
    function JsonRpcCode(): int {
      if code.Some? then code.value else ERR_INTERNAL
    }
  }

  const CANCELED := ServiceError(Some(ERR_CANCELED), Cancelled)
}
