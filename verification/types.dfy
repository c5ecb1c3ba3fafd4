/** Values shared by the storage, security and API layers of kind-app:
    bytes, Go's `(value, error)` returns and the errors the layers raise. */
module Types {

  /** One octet; Go's `byte`. */
  newtype byte = x: int | 0 <= x < 256

  /** A Go `[]byte`, and the bytes of a Go `string` (`[]byte(s)`). */
  type Bytes = seq<byte>

  datatype Option<+T> = None | Some(value: T)

  /** A Go `(T, error)` pair: the value is meaningful only when the error is nil. */
  datatype Result<+T> = Ok(value: T) | Err(error: Error)

  /** The errors that the modelled code returns. */
  datatype Error =
    | NoSuchRow                     // db.Getcreds: no row for the user name
    | InsertFailed                  // db.Adduser: the INSERT was refused
    | UserAlreadyExists             // security.Createuser
    | SaltFailed                    // security.Createuser: crypto/rand failed
    | PasswordIncorrect             // security.Authenticate
    | SessionStoreFailed            // db.AddSession / db.DeleteSession: the write was refused
    | SessionCreateFailed(cause: Error)  // security.Authenticate: carries the AddSession error
    | SessionNotFound               // db.GetUsername: no session with that id
}
