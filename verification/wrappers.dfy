/** The optional-value type shared by every module of the model. Python's `None`,
    Go's nil pointer and an absent JSON key are all modelled as `None`. */
module Wrappers {

  datatype Option<+T> = None | Some(value: T) {

    /** The wrapped value, or `default` when there is none. */
    function GetOr(default: T): T {
      match this
      case Some(v) => v
      case None => default
    }

    /** `f` applied to the wrapped value, if there is one. */
    function Map<U>(f: T -> U): (r: Option<U>)
      ensures r.Some? <==> this.Some?
      ensures r.Some? ==> r.value == f(this.value)
    {
      match this
      case Some(v) => Some(f(v))
      case None => None
    }
  }
}
