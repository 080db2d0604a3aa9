/** The exceptions the modelled core can raise, as values. */
module Errors {

  /** `HttpException` is FastAPI's HTTPException (status, detail, and whether the
      `WWW-Authenticate: Bearer` challenge header is attached). `IntegrityError` is a
      database constraint violation raised by the store. `PasswordValueError` is the
      `ValueError` the password hasher raises for a secret it refuses; nothing catches it,
      so the client sees a 500. */
  datatype Error =
    | HttpException(status: int, detail: string, bearerChallenge: bool)
    | IntegrityError(constraint: string)
    | PasswordValueError(reason: string)

  const HTTP_400_BAD_REQUEST := 400
  const HTTP_401_UNAUTHORIZED := 401
  const HTTP_404_NOT_FOUND := 404

  /** The one shared credentials exception of the security module. */
  const CredentialsError := HttpException(HTTP_401_UNAUTHORIZED, "Could not validate credentials", true)

  /** Raised for a token whose signature is valid but whose expiry has passed. */
  const TokenExpiredError := HttpException(HTTP_401_UNAUTHORIZED, "Token has expired", true)

  /** Raised by registration when the email is already taken. */
  const UserExistsError := HttpException(HTTP_400_BAD_REQUEST, "A user with that email already exists", false)

  /** Raised by the post routes for an unknown post id. */
  const PostNotFoundError := HttpException(HTTP_404_NOT_FOUND, "Post not found", false)

  /** passlib's `PasswordSizeError`: the secret is longer than its size limit. */
  const PasswordTooLong := PasswordValueError("password exceeds the maximum size")

  /** passlib's `NullPasswordError`: bcrypt secrets may not contain a NUL byte. */
  const PasswordHasNul := PasswordValueError("bcrypt password contains a NUL byte")

  /** The database's UNIQUE constraint on `users.email`. */
  const UniqueEmailViolation := IntegrityError("UNIQUE constraint failed: users.email")
}
