/** `handle_pdf_upload`: read the first form field, render it off the request
    task, upload every page image, and answer with the list of object keys or
    with the error that stopped the request. */
module Handler {
  import opened Wrappers
  import opened Errors
  import opened Formats
  import opened Naming
  import opened Render
  import opened Upload

  /** The first field of the multipart form; reading its bytes may still fail. */
  datatype Field = Field(bytes: Result<Bytes, MultipartError>)

  /** The success body: `{"success": true, "images": [...]}`. */
  datatype UploadResponse = UploadResponse(success: bool, images: seq<string>)

  /** The outside world the handler talks to, as functions: the content hash,
      pdfium's parse of the uploaded bytes, the image encoder, the object
      store's answer to each upload, and the order in which a set of upload
      tasks completes. */
  datatype World = World(
    hash: Hasher,
    load: Bytes -> Result<Document, PdfiumError>,
    encode: Encoder,
    store: PdfImage -> Result<(), S3Error>,
    schedule: seq<PdfImage> -> seq<nat>)

  /** The scheduler finishes every spawned task exactly once. */
  ghost predicate Fair(w: World) {
    forall images :: IsCompletionOrder(w.schedule(images), |images|)
  }

  /** The answers of the object store to the uploads of `images`, in order. */
  function Answers(w: World, images: seq<PdfImage>): (sent: seq<Result<(), S3Error>>)
    ensures |sent| == |images|
    ensures forall i :: 0 <= i < |images| ==> sent[i] == w.store(images[i])
  {
    seq(|images|, i requires 0 <= i < |images| => w.store(images[i]))
  }

  /** The handler. Each stage before the uploads stops the request at its
      first error: a form that cannot be read is a `Multipart` error, a form
      without fields is `FieldNotFound`, a render task that did not finish
      (`renderTask`) is a `Task` error, and bytes pdfium cannot load are a
      `Pdfium` error. Otherwise every page image is uploaded, and the request
      succeeds exactly when every upload did; it then lists each image's key
      once, each key being `"{hash}-{page}.{ext}"` for a page that rendered
      and encoded. */
  method HandlePdfUpload(w: World, format: OutputFormat, nextField: Result<Option<Field>, MultipartError>,
                         renderTask: Option<JoinError>)
      returns (r: Result<UploadResponse, AppError>)
    requires Fair(w)
    ensures nextField.Failure? ==> r == Failure(Multipart(nextField.error))
    ensures nextField == Success(None) ==> r == Failure(FieldNotFound)
    ensures nextField.Success? && nextField.value.Some? ==>
      var body := nextField.value.value.bytes;
      (body.Failure? ==> r == Failure(Multipart(body.error))) &&
      (body.Success? && renderTask.Some? ==> r == Failure(Task(renderTask.value))) &&
      (body.Success? && renderTask.None? && w.load(body.value).Failure? ==>
         r == Failure(Pdfium(w.load(body.value).error))) &&
      (body.Success? && renderTask.None? && w.load(body.value).Success? ==>
         var data, doc := body.value, w.load(body.value).value;
         var images := ProcessPdf(w.hash, data, format, Success(doc), w.encode).value;
         (r.Success? <==> forall i :: 0 <= i < |images| ==> w.store(images[i]).Success?) &&
         (r.Failure? ==> r.error.S3?) &&
         (r.Success? ==>
            r.value.success && |r.value.images| == |images| <= |doc.pages| &&
            multiset(r.value.images) == multiset(Names(images)) &&
            ArePageKeys(r.value.images, w.hash, data, format, doc, w.encode)))
  {
    // `multipart.next_field().await?.ok_or_else(|| AppError::FieldNotFound)?`
    if nextField.Failure? {
      return Failure(Multipart(nextField.error));
    }
    if nextField.value.None? {
      return Failure(FieldNotFound);
    }
    // `field.bytes().await?`
    var body := nextField.value.value.bytes;
    if body.Failure? {
      return Failure(Multipart(body.error));
    }
    var data := body.value;
    // `spawn_blocking(move || process_pdf(&data, format)).await??`
    if renderTask.Some? {
      return Failure(Task(renderTask.value));
    }
    var processed := ProcessPdf(w.hash, data, format, w.load(data), w.encode);
    if processed.Failure? {
      return Failure(processed.error);
    }
    var images := processed.value;
    var uploaded := UploadAll(images, Answers(w, images), w.schedule(images));
    if uploaded.Failure? {
      return Failure(uploaded.error);
    }
    ghost var doc := w.load(data).value;
    assert images == ProcessPdf(w.hash, data, format, Success(doc), w.encode).value;
    assert |images| <= |doc.pages|;
    UploadedKeysArePageKeys(w.hash, data, format, doc, w.encode, uploaded.value);
    r := Success(UploadResponse(true, uploaded.value));
  }

  /** Every key in `keys` is `"{hash}-{page}.{ext}"` for a page of `doc` that
      rendered and encoded. */
  ghost predicate ArePageKeys(keys: seq<string>, hash: Hasher, data: Bytes, format: OutputFormat,
                              doc: Document, encode: Encoder)
  {
    forall k :: 0 <= k < |keys| ==>
      exists i :: (0 <= i < |doc.pages| && PageSucceeds(doc, encode, format, i) &&
                   keys[k] == ObjectKey(hash(data), i, format))
  }

  /** Whatever lists the image names of a loaded document, in any order,
      lists keys `"{hash}-{page}.{ext}"` of pages that rendered and encoded. */
  lemma UploadedKeysArePageKeys(hash: Hasher, data: Bytes, format: OutputFormat, doc: Document, encode: Encoder,
                                keys: seq<string>)
    requires multiset(keys) == multiset(Names(ProcessPdf(hash, data, format, Success(doc), encode).value))
    ensures ArePageKeys(keys, hash, data, format, doc, encode)
  {
    var images := ProcessPdf(hash, data, format, Success(doc), encode).value;
    ProcessPdfPages(hash, data, format, doc, encode);
    forall k | 0 <= k < |keys|
      ensures exists i :: (0 <= i < |doc.pages| && PageSucceeds(doc, encode, format, i) &&
                           keys[k] == ObjectKey(hash(data), i, format))
    {
      assert keys[k] in multiset(Names(images));
      var j :| 0 <= j < |images| && Names(images)[j] == keys[k];
    }
  }

  /** What goes on the wire. */
  datatype Body = UploadBody(upload: UploadResponse) | MessageBody(message: ErrorResponse)
  datatype HttpReply = HttpReply(status: nat, body: Body)

  const Ok: nat := 200

  /** The reply for the handler's result: `Json(UploadResponse)` with 200 on
      success, otherwise the error's own reply. */
  function Respond(r: Result<UploadResponse, AppError>): (reply: HttpReply)
    ensures reply.status == Ok <==> r.Success?
    ensures r.Success? ==> reply.body == UploadBody(r.value)
    ensures r.Failure? ==> reply.body == MessageBody(IntoResponse(r.error).body)
    ensures r.Failure? ==> reply.status in {BadRequest, InternalServerError}
    ensures r.Failure? ==> (reply.status == BadRequest <==> IsClientError(r.error))
  {
    match r
    case Success(response) => HttpReply(Ok, UploadBody(response))
    case Failure(e) =>
      var er := IntoResponse(e);
      HttpReply(er.status, MessageBody(er.body))
  }
}
