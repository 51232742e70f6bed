/** Go error values as the API produces and inspects them: a root error of
    some concrete type, possibly wrapped by `fmt.Errorf("...: %w", err)`.
    `errors.As` and `errors.Is` look through the wrapping to the root. */
module Errors {

  /** The concrete types (and sentinel) that the error classifier tests for;
      every other error value is `Other`. The two `PasswordIncorrect` kinds are
      distinct Go types declared in two packages. */
  datatype Kind =
    | NoRows                   // sql.ErrNoRows, as the store driver reports a missing row
    | CommonPasswordIncorrect  // *common.PasswordIncorrectError
    | CommonNotFound           // *common.NotFoundError
    | SharesPasswordIncorrect  // *shares.PasswordIncorrectError
    | SharesExpiredShare       // *shares.ExpiredShareError
    | UsersWrongPassword       // *users.WrongPasswordError
    | UsersUserAlreadyExists   // *users.UserAlreadyExistsError
    | Other                    // errors.New, store, bcrypt and parse failures

  datatype Error =
    | Leaf(kind: Kind, text: string)
    | Wrapped(prefix: string, inner: Error)

  /** The innermost error of a wrapping chain: what `errors.As` and `errors.Is` find. */
  function Root(e: Error): Kind {
    match e
    case Leaf(k, _) => k
    case Wrapped(_, inner) => Root(inner)
  }

  /** `err.Error()`: each wrapper puts its prefix in front of the inner message. */
  function Message(e: Error): string {
    match e
    case Leaf(_, text) => text
    case Wrapped(prefix, inner) => prefix + Message(inner)
  }

  /** The message of the innermost error alone: what `Error()` says of the
      value `errors.As` finds. */
  function RootText(e: Error): string {
    match e
    case Leaf(_, text) => text
    case Wrapped(_, inner) => RootText(inner)
  }

  const ErrNoRows: Error := Leaf(NoRows, "no rows in result set")
  const PasswordIncorrect: Error := Leaf(SharesPasswordIncorrect, "password is incorrect")
  const WrongPassword: Error := Leaf(UsersWrongPassword, "username or password is incorrect")
  const UserAlreadyExists: Error := Leaf(UsersUserAlreadyExists, "user already exists")
  const CommonPasswordIncorrectError: Error := Leaf(CommonPasswordIncorrect, "password is incorrect")
  const NotFound: Error := Leaf(CommonNotFound, "resource not found")

  /** `errors.New(text)`. */
  function Plain(text: string): Error {
    Leaf(Other, text)
  }
}
