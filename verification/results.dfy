/** Failure-compatible result type for the operations that abort in the
    original program (a `panic`). Each abort reason is a `Fault`, so callers
    and lemmas can tell misuse of a recipe apart from an internal fault. */
module Results {

  /** Why an operation was refused. */
  datatype Fault =
    | FoodNotInRecipe    // RemoveFood on a food the recipe does not hold
    | RemovingTooMuch    // RemoveFood asking for more grams than are held
    | ScoreIncreased     // a search round adopted a worse candidate
    | MissingTwiddles    // a data field not enclosed in `~` characters
    | OutOfRange         // an index or slice outside the string

  datatype Option<+T> = None | Some(value: T)

  datatype Result<+T> = Success(value: T) | Failure(error: Fault) {

    predicate IsFailure() {
      Failure?
    }

    function PropagateFailure<U>(): Result<U>
      requires Failure?
    {
      Failure(error)
    }

    function Extract(): T
      requires Success?
    {
      value
    }
  }
}
