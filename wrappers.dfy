/** The optional-value datatype used for values that JavaScript leaves `undefined`. */
module Wrappers {

  datatype Option<+T> = None | Some(value: T) {

    /** This value if present, otherwise `other`. */
    function OrElse(other: Option<T>): (r: Option<T>)
      ensures Some? ==> r == this
      ensures None? ==> r == other
    {
      if Some? then this else other
    }
  }
}
