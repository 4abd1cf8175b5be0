/** The service's error type `AppError` and the way each variant becomes an
    HTTP response (`impl IntoResponse for AppError`). */
module Errors {

  /** Details carried by the wrapped library errors. Only their presence
      matters to the service; their text goes to the log, never to the client. */
  datatype PdfiumError = PdfiumError(detail: string)
  datatype MultipartError = MultipartError(detail: string)
  datatype JoinError = JoinError(detail: string)
  datatype S3Error = S3Error(detail: string)

  datatype AppError =
    | Pdfium(pdfium: PdfiumError)
    | Multipart(multipart: MultipartError)
    | FieldNotFound
    | Task(task: JoinError)
    | S3(s3: S3Error)

  const BadRequest: nat := 400
  const InternalServerError: nat := 500

  /** Body of every failure response: `{"message": ...}`. */
  datatype ErrorResponse = ErrorResponse(message: string)

  datatype ErrorReply = ErrorReply(status: nat, body: ErrorResponse)

  const InternalMessage := "Internal Server Error"
  const MultipartMessage := "Failed to read PDF file from request"
  const NoFieldMessage := "Form does not contain any fields"

  /** Errors caused by what the client sent, as opposed to failures of the
      server or of the services behind it. */
  predicate IsClientError(e: AppError) {
    e.Multipart? || e.FieldNotFound?
  }

  /** `AppError::into_response`: a status code and a fixed message per
      variant. Client errors get 400 and a message saying what was wrong with
      the form; every other error gets 500 and a message that reveals nothing. */
  function IntoResponse(e: AppError): (reply: ErrorReply)
    ensures reply.status == (if IsClientError(e) then BadRequest else InternalServerError)
    ensures reply.status == InternalServerError <==> reply.body.message == InternalMessage
    ensures e.Multipart? <==> reply.body.message == MultipartMessage
    ensures e.FieldNotFound? <==> reply.body.message == NoFieldMessage
  {
    match e
    case Pdfium(_) => ErrorReply(InternalServerError, ErrorResponse(InternalMessage))
    case Multipart(_) => ErrorReply(BadRequest, ErrorResponse(MultipartMessage))
    case FieldNotFound => ErrorReply(BadRequest, ErrorResponse(NoFieldMessage))
    case Task(_) => ErrorReply(InternalServerError, ErrorResponse(InternalMessage))
    case S3(_) => ErrorReply(InternalServerError, ErrorResponse(InternalMessage))
  }

  /** The detail inside a server-side error never reaches the client: all of
      them, whatever their variant and detail, give one and the same reply. */
  lemma ReplyHidesDetail(e1: AppError, e2: AppError)
    requires !IsClientError(e1) && !IsClientError(e2)
    ensures IntoResponse(e1) == IntoResponse(e2)
  {
  }
}
