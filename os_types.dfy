/** Types shared by the context registry and the handle table: the status
    codes every operation returns, an optional value for read-only C
    pointers, and a mutable cell for C out-pointers. */
module OsTypes {

  /** The members of the OS_Error_t enumeration that the registries produce
      or pass through; any other code an injected callback may return is
      ErrorOther. */
  datatype OsError =
    | Success
    | ErrorInvalidParameter
    | ErrorInsufficientSpace
    | ErrorInvalidHandle
    | ErrorOperationDenied
    | ErrorAborted
    | ErrorOther(code: int)

  /** A read-only pointer argument that may be NULL. */
  datatype Option<+T> = None | Some(value: T)

  /** A pointer through which a C function writes a result (`T*` used as an
      out-parameter). A NULL out-pointer is a null `Ptr`. */
  class Ptr<T> {
    var value: T

    constructor (v: T)
      ensures value == v
    {
      value := v;
    }
  }
}
