/** The optional-value datatype used wherever a JavaScript value may be
    absent (an omitted request field, a regular expression without a match,
    a failed upload). */
module Wrappers {

  datatype Option<+T> = None | Some(value: T) {

    /** The value, or `default` when there is none (JavaScript's `x || d`
        for values whose only falsy form is absence). */
    function GetOr(default: T): T
    {
      match this
      case Some(v) => v
      case None => default
    }
  }
}
