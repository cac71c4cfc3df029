/** The optional value shared by the whole model: a regular-expression match
    that may fail, a number that may be NaN, an item lookup that may miss. */
module Wrappers {

  datatype Option<+T> = None | Some(value: T) {

    /** Returns the carried value, or `default` when there is none (the
        `x || default` idiom of the source). */
    function GetOr(default: T): (r: T)
      ensures Some? ==> r == value
      ensures None? ==> r == default
    {
      match this
      case Some(v) => v
      case None => default
    }
  }
}
