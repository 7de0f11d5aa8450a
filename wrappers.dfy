/** Optional values and results with an error, for fields that may be missing
    and for records that are skipped instead of raising. */
module Wrappers {

  datatype Option<T> = None | Some(value: T) {
    function GetOr(default: T): T {
      match this
      case Some(v) => v
      case None => default
    }
  }

  datatype Result<T, E> = Ok(value: T) | Err(error: E)

  /** A JSON object member: absent, present with the value null, or present. */
  datatype Json<T> = Absent | Null | Present(value: T) {
    /** The value when present, else `default` (what `.get(key, default)`
        gives for an absent member). */
    function GetOr(default: T): T {
      match this
      case Present(v) => v
      case _ => default
    }
  }
}
