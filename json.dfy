/** The few JavaScript value notions the route handlers depend on. */
module Json {

  /** An optional request field or object property: `None` is `undefined`. */
  datatype Option<+T> = None | Some(value: T)

  /** JavaScript truthiness of a string-valued field: `undefined` and `""` are falsy, every other string is truthy. */
  predicate Truthy(s: Option<string>) {
    s.Some? && s.value != ""
  }
}
