/** Small value wrappers shared by every module of the model:
    an Option, a Result for the Go (value, error) pairs, and a Go slice
    that keeps the distinction between a nil slice and an empty one. */
module Wrappers {

  datatype Option<+T> = None | Some(value: T)

  datatype Result<+T, +E> = Success(value: T) | Failure(error: E) {
    predicate IsFailure() { Failure? }
  }

  /** A Go slice of strings or of records. `Nil` is the zero value `var s []T`;
      `List([])` is a non-nil empty slice such as `[]T{}`. */
  datatype GoSlice<T> = Nil | List(items: seq<T>) {

    /** The elements, as `range` sees them (a nil slice has none). */
    function Elems(): seq<T> {
      match this
      case Nil => []
      case List(items) => items
    }

    /** Go's `append(s, x)`: appending to a nil slice allocates a new one. */
    function Append(x: T): (r: GoSlice<T>)
      ensures r.List? && r.Elems() == Elems() + [x]
    {
      List(Elems() + [x])
    }
  }

  /** The slice left behind by a sequence of single-element appends to a nil
      slice: nil when nothing was appended, the appended elements otherwise. */
  function FromSeq<T>(s: seq<T>): (r: GoSlice<T>)
    ensures r.Elems() == s
    ensures r.Nil? <==> s == []
  {
    if s == [] then Nil else List(s)
  }
}
