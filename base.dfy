/** Values shared by every module: an optional value standing for JavaScript's
    `undefined`/`null`, and the truthiness test the server applies to strings. */
module Base {

  /** `None` models a JavaScript value that is `undefined` or `null`. */
  datatype Option<+T> = None | Some(value: T)

  /** A possibly missing string is truthy in JavaScript exactly when it is
      present and not the empty string. */
  predicate Truthy(s: Option<string>) {
    s.Some? && s.value != ""
  }
}
