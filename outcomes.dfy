/** The ways the release script can stop early, and a result type carrying them. */
module Outcomes {

  datatype Error =
    | DirtyTree                    // `git status --porcelain` printed something: exit code 1
    | MissingKey(key: string)      // a dictionary lookup raised KeyError
    | InvalidLiteral(token: string) // `int(token)` raised ValueError

  datatype Result<T> = Ok(value: T) | Err(error: Error)
}
