/** The optional value that stands in for PHP's and JavaScript's null. */
module Wrappers {

  datatype Option<+T> = None | Some(value: T) {

    /** The wrapped value, or `default` when absent: PHP's `??` operator. */
    function GetOr(default: T): T
    {
      match this
      case Some(v) => v
      case None => default
    }
  }

  /** A key of a request body: not sent, sent as null, or sent with a value. */
  datatype Field<+T> = Missing | Null | Present(value: T) {

    /** `$request->has(key)`: the key was sent, even as null. */
    predicate Sent()
    {
      !Missing?
    }

    /** `$request->key ?? fallback`: a null value falls back like a missing one. */
    function OrElse(fallback: Option<T>): (r: Option<T>)
      ensures Present? ==> r == Some(value)
      ensures !Present? ==> r == fallback
    {
      if Present? then Some(value) else fallback
    }

    /** The column after mass assignment: a sent key overwrites it, null included. */
    function Assign(current: Option<T>): (r: Option<T>)
      ensures Missing? ==> r == current
      ensures Null? ==> r == None
      ensures Present? ==> r == Some(value)
    {
      match this
      case Missing => current
      case Null => None
      case Present(v) => Some(v)
    }
  }
}
