// Small shared datatypes: optional values (a pointer that may be NULL) and
// results that carry an error message (a thrown exception or an error return).
module Wrappers {
  datatype Option<T> = None | Some(value: T)

  datatype Result<T> = Ok(value: T) | Err(error: string)
  {
    predicate IsFailure() { Err? }
  }
}
