/** Values shared by every module: optional values, the exceptions the engine
    raises, and a result type that carries either a value or a raised exception. */
module Common {

  datatype Option<T> = None | Some(value: T) {
    /** The value, or `default` when there is none (Python's `dict.get(key, default)`). */
    function GetOr(default: T): T {
      match this
      case Some(v) => v
      case None => default
    }
  }

  /** The exceptions raised by the modelled code. */
  datatype Exception =
    | ValueError
    | IndexError
    | TypeError
    | AttributeError
    | KeyError
    | BindingDoesNotExist(binding: string)
    | MissingSceneError

  /** Either a normal return or a raised exception. */
  datatype Result<T> = Ok(value: T) | Raise(error: Exception)

  /** A statement that returns nothing either completes or raises. */
  datatype Outcome = Done | Raised(error: Exception)

  /** Python's `max` and `min` of two integers. */
  function Max(a: int, b: int): int { if a >= b then a else b }
  function Min(a: int, b: int): int { if a <= b then a else b }
}
