/** The optional value every `next` returns (maybe.h): `Nothing` signals exhaustion,
    `Just(v)` carries the next element. */
module Maybes {

  datatype Maybe<+T> = Nothing | Just(val: T) {

    /** Applies `f` to the payload, keeping `Nothing` as it is. */
    function Map<U>(f: T -> U): (r: Maybe<U>)
      ensures r.Nothing? <==> Nothing?
      ensures Just? ==> r.val == f(val)
    {
      match this
      case Nothing => Nothing
      case Just(v) => Just(f(v))
    }
  }
}
