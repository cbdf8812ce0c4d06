/** An optional value: whether the page has a heading, and whether a URL
    resolves or the URL constructor throws. */
module Wrappers {
  datatype Option<T> = None | Some(value: T)
}
