/** SQL NULL and failing store calls.

    `Option` stands for a nullable column (`None` is SQL NULL) and for a lookup
    that may find nothing; `Result` for a store call that may be rejected. */
module Nullable {

  datatype Option<+T> = None | Some(value: T) {
    /** The value, or `default` when this is NULL. */
    function GetOr(default: T): T {
      match this
      case Some(v) => v
      case None => default
    }
  }

  /** Why a store call is rejected in this model. */
  datatype Failure =
    | UnknownTable(name: string)   // `DELETE FROM` names a table the schema does not have
    | BadValue(column: string)     // a bound parameter the column cannot hold
    | DuplicateKey(table: string)  // an insert whose new id is already taken
    | Unrecognised                 // a statement text this model gives no meaning to

  datatype Result<+T> = Ok(value: T) | Err(failure: Failure)
}
