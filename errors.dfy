/** The application error type of `src/error.rs`, its HTTP status mapping and the
    channel-error conversions. Payloads that are foreign error values (I/O,
    configuration, image-crate, … errors) are not modelled; the two variants that
    carry a message keep it. */
module Errors {

  datatype AppError =
    | Io
    | Config
    | Walkdir
    | Image
    | Exif
    | Elasticsearch
    | Tantivy
    | QueryParser
    | Json
    | Join
    | SendError
    | RecvError
    | Generic(message: string)
    | NotFound(message: string)

  /** `Result<T, AppError>`; `Result<()>` is the Rust `Result<(), AppError>`. */
  datatype Result<+T> = Ok(value: T) | Err(error: AppError)

  const NotFoundStatus: nat := 404
  const BadRequestStatus: nat := 400
  const InternalServerErrorStatus: nat := 500

  /** Errors caused by what the caller sent: an image or EXIF block that cannot be
      decoded, a query that does not parse, a body that is not valid JSON. */
  predicate IsMalformedInput(e: AppError) {
    e.Image? || e.Exif? || e.QueryParser? || e.Json?
  }

  /** `ResponseError::status_code` for `AppError`: not-found is 404, malformed
      input is 400, every store, I/O, configuration, join or channel fault is 500. */
  function StatusCode(e: AppError): (code: nat)
    ensures code == NotFoundStatus <==> e.NotFound?
    ensures code == BadRequestStatus <==> IsMalformedInput(e)
    ensures code == InternalServerErrorStatus <==> !e.NotFound? && !IsMalformedInput(e)
  {
    match e
    case Io => InternalServerErrorStatus
    case Config => InternalServerErrorStatus
    case Walkdir => InternalServerErrorStatus
    case Image => BadRequestStatus
    case Exif => BadRequestStatus
    case Elasticsearch => InternalServerErrorStatus
    case Tantivy => InternalServerErrorStatus
    case QueryParser => BadRequestStatus
    case Json => BadRequestStatus
    case Join => InternalServerErrorStatus
    case SendError => InternalServerErrorStatus
    case RecvError => InternalServerErrorStatus
    case Generic(_) => InternalServerErrorStatus
    case NotFound(_) => NotFoundStatus
  }

  /** The error taxonomy behind the mapping: every status is a client error (4xx)
      exactly when the fault lies with the request, and a server error (5xx)
      otherwise; the message carried by `NotFound` or `Generic` never changes
      the status. */
  lemma StatusCodeClassifies(e: AppError, message: string)
    ensures 400 <= StatusCode(e) < 500 <==> e.NotFound? || IsMalformedInput(e)
    ensures 500 <= StatusCode(e) < 600 <==> !(e.NotFound? || IsMalformedInput(e))
    ensures e.NotFound? ==> StatusCode(e) == StatusCode(NotFound(message))
    ensures e.Generic? ==> StatusCode(e) == StatusCode(Generic(message))
  {
  }

  /** `From<crossbeam_channel::SendError<T>>`: whatever value failed to be sent. */
  function FromSendError<T>(unsent: T): (e: AppError)
    ensures e == SendError
  {
    SendError
  }

  /** `From<crossbeam_channel::RecvError>`. */
  function FromRecvError(): (e: AppError)
    ensures e == RecvError
  {
    RecvError
  }
}
