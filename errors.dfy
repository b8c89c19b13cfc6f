/** Error values and the option/outcome wrappers shared by the account and
    session stores. Go returns `error` values and `(value, error)` pairs; the
    model returns one of the datatypes below instead. */
module Errors {

  /** The failures the auth package can report. The os-level ones carry the
      path of the file that was opened or removed. */
  datatype Error =
    | UsernameLength                 // username code-point count outside [8, 40]
    | PasswordLength                 // password code-point count outside [8, 40]
    | UserExists(username: string)   // user.Write on a username already in the table
    | FileExists(path: string)       // O_CREATE|O_EXCL on a path that exists
    | FileNotFound(path: string)     // open or remove of a path that does not exist
    | RandomSourceFailed             // crypto/rand could not fill the buffer
    | SessionUserMissing             // a session file names a user that is not in the table
    | InvalidCookieName(name: string) // a cookie whose name is not the session cookie's

  datatype Option<+T> = None | Some(value: T)

  /** A value or an error: Go's `(T, error)` where exactly one is meaningful. */
  datatype Result<+T> = Ok(value: T) | Err(error: Error)

  /** Go's bare `error` return: nil or an error. */
  datatype Outcome = Success | Failure(error: Error)
}
