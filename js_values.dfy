/** JavaScript values as the modelled handlers and pages see them. */
module JsValues {

  /** A value that may be missing (`null` from localStorage, no match, no record). */
  datatype Option<+T> = None | Some(value: T)
  {
    function GetOr(default: T): T
    {
      match this
      case Some(v) => v
      case None => default
    }
  }

  /** A document field or request property in its three JavaScript states: never set
      (`undefined`), explicitly cleared (`null`), or holding a value. Strict equality
      `===` between two such fields is equality of these datatype values. */
  datatype Field<+T> = Undefined | Null | Value(value: T)

  /** `f < new Date()` for a Date-valued field `f` at the current time `now`
      (milliseconds since the epoch). `undefined` converts to NaN, so the comparison is
      false; `null` converts to 0. */
  predicate DateBefore(f: Field<int>, now: int)
  {
    match f
    case Undefined => false
    case Null => 0 < now
    case Value(t) => t < now
  }

  /** `!!f` for a string-valued field: only a non-empty string is truthy. */
  predicate TruthyString(f: Field<string>)
  {
    f.Value? && f.value != ""
  }
}
