/** Values shared by the route handlers: optional results and the fields of a
    JSON request body as the handlers test them. */
module Common {

  datatype Option<+T> = None | Some(value: T)

  /** One field of a parsed request body: missing (`undefined` or `null`) or a string. */
  datatype Field = Absent | Str(value: string)

  /** JavaScript truthiness of a body field: `!field` is false exactly when the
      field is present and is not the empty string. */
  predicate Truthy(f: Field)
  {
    f.Str? && f.value != ""
  }
}
