/** Optional values, used for JavaScript's `null` results (a cancelled prompt,
    an unset current file) and for absent JSON fields. */
module Wrappers {

  datatype Option<+T> = None | Some(value: T)

  /** JavaScript truthiness of a value that is either `null` or a string:
      `null` and the empty string are falsy, every other string is truthy. */
  predicate Truthy(s: Option<string>) {
    s.Some? && s.value != ""
  }
}
