/** Shared vocabulary: the result codes of the runtime and an Option standing
    for a pointer that may be null. */
module Interface {

  /** eer_result_t, in declaration order OK = 0, ERROR_UNKNOWN = 1, ... */
  datatype Status = Ok | ErrorUnknown | ErrorBufferFull | ErrorBufferEmpty | ErrorBufferBusy

  /** A nullable pointer to a value of type T. */
  datatype Option<T> = None | Some(value: T) {
    /** The pointed-to value, or `default` for a null pointer. */
    function GetOr(default: T): T {
      if Some? then value else default
    }
  }
}
