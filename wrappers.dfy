/** Small value wrappers shared by the other modules. */
module Wrappers {

  /** Python's `Optional[T]`: `None` or a present value. */
  datatype Option<+T> = None | Some(value: T) {

    /** The present value, or `default` when absent (Python's `x if x is not None else default`). */
    function GetOr(default: T): T {
      match this
      case Some(v) => v
      case None => default
    }
  }

  /** Python's `Union[T, List[T]]` argument: a single item or a list of items. */
  datatype OneOrMany<+T> = One(item: T) | Many(items: seq<T>) {

    /** `[x] if not isinstance(x, list) else x` */
    function AsList(): seq<T> {
      match this
      case One(x) => [x]
      case Many(xs) => xs
    }
  }
}
