/** The optional value Kotlin writes as a nullable type (`String?`, `Response?`). */
module Wrappers {

  datatype Option<+T> = None | Some(value: T)
}
