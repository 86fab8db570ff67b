/** Plain values shared by every part of the model: optional values, results,
    the outcome of a Ruby call (a return value or a raised exception), and the
    Ruby argument values a service can be called with. */
module Values {

  datatype Option<+T> = None | Some(value: T)

  /** A computation that either produced a value or failed with an error. */
  datatype Result<+R, +E> = Success(value: R) | Failure(error: E)

  /** A persisted record (an ActiveRecord instance): its class name and its id. */
  datatype Record = Record(cls: string, id: int)

  /** The Ruby values the model distinguishes.  `Other` stands for an instance
      of any class not listed (a Hash, a Time, a custom object, ...). */
  datatype Arg =
    | IntArg(i: int)
    | StrArg(s: string)
    | BoolArg(b: bool)
    | NilArg
    | SymArg(name: string)
    | FloatArg(f: real)
    | ArrayArg(items: seq<Arg>)
    | ObjectArg(rec: Record)
    | OtherArg(cls: string)

  /** Ruby truthiness: everything except `nil` and `false` is true. */
  predicate Truthy(a: Arg)
  {
    !(a.NilArg? || a == BoolArg(false))
  }

  /** `Array(x)` for the values the model knows: an array is itself,
      `nil` is the empty array, anything else is wrapped. */
  function ToArray(a: Arg): (r: seq<Arg>)
    ensures a.ArrayArg? ==> r == a.items
    ensures a.NilArg? ==> r == []
    ensures !a.ArrayArg? && !a.NilArg? ==> r == [a]
  {
    match a
    case ArrayArg(items) => items
    case NilArg => []
    case _ => [a]
  }

  /** `Array#any?` without a block: some element is truthy. */
  predicate AnyTruthy(xs: seq<Arg>)
  {
    exists i :: 0 <= i < |xs| && Truthy(xs[i])
  }
}
