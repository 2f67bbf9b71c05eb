/** Value-or-error wrappers for the collaborators the resolver calls, and the
    process environment as an injected, read-only map. */
module Oracles {

  datatype Option<+T> = None | Some(value: T)

  /** A Go `error` value that is not nil. */
  datatype Error = Error(message: string)

  /** A collaborator that returns either a value or a non-nil error. */
  datatype Result<+T> = Ok(value: T) | Err(error: Error)

  /** `os.Getenv`: an unset variable reads as the empty string, so a caller
      cannot tell it from a variable set to "". */
  function Getenv(env: map<string, string>, key: string): (r: string)
    ensures r == "" <==> key !in env || env[key] == ""
    ensures r != "" ==> key in env && env[key] == r
  {
    if key in env then env[key] else ""
  }
}
