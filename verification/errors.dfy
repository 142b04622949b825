/** The failure the icon generator raises, and the result type that carries it.

    `GenerationError` is the script's only own exception: it is raised when a
    colour name is neither a `#` hex string nor a key of the named-colour table.
 */
module Errors {

  /** The reason a generation run stops before touching the workspace. */
  datatype GenerationError =
    /** `name` is not a hex string and not among the `available` colour names. */
    | InvalidColor(name: string, available: set<string>)

  datatype Result<+T> = Ok(value: T) | Err(error: GenerationError) {

    predicate IsFailure() {
      Err?
    }

    function PropagateFailure<U>(): Result<U>
      requires Err?
    {
      Err(error)
    }

    function Extract(): T
      requires Ok?
    {
      value
    }
  }
}
