/** Wrappers shared by the model: an optional value (a JSON
    field that may be null) and a result that carries either a value or the
    runtime error the script would have raised. */
module Wrappers {

  datatype Option<+T> = None | Some(value: T)

  datatype Result<+T, +E> = Ok(value: T) | Err(error: E)
}
