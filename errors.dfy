/** The application's error values (models/errors.go) and the way the HTTP layer
    turns any error into a status code. */
module Errors {
  import opened Wrappers

  const StatusBadRequest: int := 400
  const StatusNotFound: int := 404
  const StatusConflict: int := 409
  const StatusInternalServerError: int := 500

  /** An error that carries the HTTP status it should be reported with. */
  datatype AppError = AppError(message: string, statusCode: int) {

    /** The `error` interface: the message alone, not the status. */
    function Error(): (text: string)
      ensures text == message
    {
      message
    }

    /** The status the error was made with. */
    function GetStatusCode(): (code: int)
      ensures code == statusCode
    {
      statusCode
    }
  }

  /** A Go `error` value as the core produces it: nil, an `*AppError`, a plain
      error made by `errors.New` or `fmt.Errorf` without `%w`, or an error
      wrapped by `fmt.Errorf("<prefix>%w", cause)`. */
  datatype Error = Nil | App(app: AppError) | Other(message: string) | Wrapped(prefix: string, cause: Error)

  /** A Go `(value, error)` pair in which exactly one side is meaningful. */
  datatype Result<+T> = Ok(value: T) | Err(error: Error)

  const ErrInvalidURLFormat: AppError := AppError("invalid URL format", StatusBadRequest)
  const ErrInvalidURLScheme: AppError := AppError("invalid URL: missing scheme or host", StatusBadRequest)
  const ErrInvalidAliasLength: AppError := AppError("alias must be between 3 and 20 characters", StatusBadRequest)
  const ErrInvalidAliasChars: AppError := AppError("alias can only contain letters, numbers, and hyphens", StatusBadRequest)
  const ErrAliasAlreadyExists: AppError := AppError("alias already exists", StatusConflict)
  const ErrShortCodeNotFound: AppError := AppError("short code not found", StatusNotFound)
  const ErrShortCodeExpired: AppError := AppError("short code has expired", StatusNotFound)

  const Sentinels: seq<AppError> := [ErrInvalidURLFormat, ErrInvalidURLScheme, ErrInvalidAliasLength,
    ErrInvalidAliasChars, ErrAliasAlreadyExists, ErrShortCodeNotFound, ErrShortCodeExpired]

  /** Whatever error a store driver (Redis, MongoDB) reports; the core only
      passes it on, so its text does not matter. */
  const StoreFault: Error := Other("store unavailable")

  /** Whether an `*AppError` occurs on the chain of causes of `e`. */
  predicate HasAppError(e: Error)
  {
    match e
    case App(_) => true
    case Wrapped(_, cause) => HasAppError(cause)
    case _ => false
  }

  /** `errors.As(e, &appErr)`: the first `*AppError` on the chain of causes. */
  function AsAppError(e: Error): (r: Option<AppError>)
    ensures r.Some? <==> HasAppError(e)
    ensures e.App? ==> r == Some(e.app)
  {
    match e
    case App(a) => Some(a)
    case Wrapped(_, cause) => AsAppError(cause)
    case _ => None
  }

  /** GetStatusCodeFromError: the status of the first `*AppError` on the chain,
      500 for every other error and for nil. */
  function GetStatusCodeFromError(e: Error): (code: int)
    ensures !HasAppError(e) ==> code == StatusInternalServerError
    ensures e.App? ==> code == e.app.GetStatusCode()
  {
    match AsAppError(e)
    case Some(a) => a.GetStatusCode()
    case None => StatusInternalServerError
  }

  /** The status table of the seven sentinel errors. */
  lemma SentinelStatuses()
    ensures GetStatusCodeFromError(App(ErrInvalidURLFormat)) == StatusBadRequest
    ensures GetStatusCodeFromError(App(ErrInvalidURLScheme)) == StatusBadRequest
    ensures GetStatusCodeFromError(App(ErrInvalidAliasLength)) == StatusBadRequest
    ensures GetStatusCodeFromError(App(ErrInvalidAliasChars)) == StatusBadRequest
    ensures GetStatusCodeFromError(App(ErrAliasAlreadyExists)) == StatusConflict
    ensures GetStatusCodeFromError(App(ErrShortCodeNotFound)) == StatusNotFound
    ensures GetStatusCodeFromError(App(ErrShortCodeExpired)) == StatusNotFound
  {
  }

  /** Wrapping an error with `%w` never changes its status. */
  lemma {:induction false} WrappingKeepsStatus(prefix: string, e: Error)
    ensures GetStatusCodeFromError(Wrapped(prefix, e)) == GetStatusCodeFromError(e)
  {
  }

  /** Nil, plain errors and chains without an `*AppError` are all reported as 500. */
  lemma UnknownErrorsAre500(message: string)
    ensures GetStatusCodeFromError(Nil) == StatusInternalServerError
    ensures GetStatusCodeFromError(Other(message)) == StatusInternalServerError
    ensures GetStatusCodeFromError(Wrapped(message, StoreFault)) == StatusInternalServerError
  {
  }

  /** The seven sentinels have pairwise distinct messages, so the text of an
      error response tells them apart. */
  lemma SentinelMessagesDistinct()
    ensures forall i, j :: 0 <= i < j < |Sentinels| ==> Sentinels[i].Error() != Sentinels[j].Error()
  {
  }
}
