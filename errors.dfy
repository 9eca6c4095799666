/** The program's error type (src/error.rs). Library errors are carried without their payloads. */
module Errors {
  import Json

  /** Why a platform's balance could not be read; `MissingField` is declared but never built. */
  datatype BalanceError = MissingField(field: string) | ParseError(field: string)

  datatype Error =
    | IoError
    | DotenvError
    | ConfigurationError
    | DatabaseError
    | RequestError
    | BalanceUnavailable(platform: string, error: BalanceError, json: Json.Value)
}
