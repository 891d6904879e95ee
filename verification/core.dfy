/** Failure-carrying wrappers used throughout the model. JavaScript's
    `undefined`/`null` becomes `None`; a thrown error becomes `Err`. */
module Core {

  datatype Option<+T> = None | Some(value: T)

  datatype Result<+T, +E> = Ok(value: T) | Err(error: E)

  /** JavaScript truthiness of an optional string: `undefined`, `null` and
      the empty string are all falsy. */
  predicate Truthy(s: Option<string>)
  {
    s.Some? && s.value != ""
  }
}
