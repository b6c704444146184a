/** The optional value used wherever the scraper's Python code either yields a
    value or raises and leaves a default in place. */
module Wrappers {
  datatype Option<+T> = None | Some(value: T) {
    /** The value, or `default` when there is none (a field that keeps its default). */
    function GetOr(default: T): T {
      match this
      case Some(v) => v
      case None => default
    }
  }
}
