// Result types shared by the whole project.
module Wrappers {

  datatype Option<+T> = None | Some(value: T) {
    function GetOr(default: T): T {
      if Some? then value else default
    }
  }

  // Go's (value, error) pairs; the model keeps the fact of an error, not its text.
  datatype Result<+T> = Ok(value: T) | Err
}
