# pdf-images in Dafny

A model of the request pipeline of `pdf-images`. This is an HTTP service that
takes an uploaded PDF and renders each page into a chosen image format. It
stores every page image in an S3-compatible bucket under a content-addressed
key and answers with the list of keys. The model covers the service's own
logic. Everything else is a call into a library or the network, and the model
takes it as a parameter:

- `Formats`: the fourteen output formats. Each has one encoder and one file
  extension, and `png` is the default. The module also holds the names that
  the `format` query parameter accepts.
- `Naming`: the object key `"{digest}-{page}.{ext}"` and a parser that is its
  exact inverse. Two keys are equal only when they have the same digest, page
  and format.
- `Render`: `process_pdf`. Every page is rendered and encoded. A page that
  fails is dropped without an error. The pages that are kept keep their
  original zero-based index in their names.
- `Upload`: `put_image` and the fan-out in `handle_pdf_upload`. There is one
  upload per image and the handler waits for all of them. The results come
  back in completion order and are then collected.
- `Handler`: the whole handler, stage by stage, with each error it stops at,
  and the HTTP reply for its result.
- `Errors`: `AppError` and the status and message of each variant.
- `Config`: the request body limit computed in `main`.

The external pieces enter as parameters:

- the blake3 hash is a function from bytes to a 64-digit lower-case hex digest;
- pdfium's parse of the upload is a `Result`;
- rendering gives one `Option` per page;
- the image encoder is a function;
- the object store's answer is one `Result` per upload;
- the order in which upload tasks finish is any permutation of the tasks.

Every page is rendered with pdfium's default configuration
(`PdfRenderConfig::default()`). A successful response lists the keys in the
order the uploads completed, not in page order.

## Model

| member | source | states |
|---|---|---|
| `Formats.DefaultFormat` | src/main.rs:20-24 | the default format is the one whose extension is "png" |
| `Formats.AsImageFormat` | src/main.rs:43-60 | each format selects its own encoder; the encoder determines the format back (no two formats share an encoder) |
| `Formats.Extension` | src/main.rs:62-79 | every format has a non-empty extension made only of lower-case letters, and the format can be recovered from its extension |
| `Formats.FromExtensionExact` | src/main.rs:62-79 | reading an extension back gives format f exactly when the extension is f's own, in both directions |
| `Formats.ExtensionInjective` | src/main.rs:62-79 | two formats have the same extension if and only if they are the same format |
| `Formats.QueryName` | src/main.rs:20-40 | each format's lower-case query name (with the explicit `webp` and `openexr` renames) parses back to that format |
| `Formats.QueryNameExact` | src/main.rs:20-40 | the query-name parser accepts exactly the fourteen names and returns the format that has that name |
| `Formats.ResolveFormat` | src/main.rs:82-86 | an absent `format` parameter resolves to Png; a present one resolves exactly when it is one of the fourteen names, and then to the format with that name |
| `Naming.Decimal` | src/main.rs:177 | the page index is written as a canonical decimal: non-empty digits with no leading zero, one digit exactly below 10 |
| `Naming.DecimalRoundTrip` | src/main.rs:177 | parsing the decimal rendering of a page index gives the index back |
| `Naming.CanonicalDecimalRoundTrip` | src/main.rs:177 | every canonical decimal string is the rendering of the number it denotes |
| `Naming.ObjectKey` | src/main.rs:156-177 | the key `"{id}-{idx}.{ext}"` parses back into exactly the digest, page index and format it was built from |
| `Naming.KeyRoundTrip` | src/main.rs:177 | splitting the key at its first '-' and the next '.' recovers the digest, the decimal index and the extension |
| `Naming.ParsedKeyRebuilds` | src/main.rs:177 | every string the key parser accepts is rebuilt unchanged from the parts it returns, so the parser is an exact inverse |
| `Naming.ObjectKeyInjective` | src/main.rs:156-177 | two keys are equal if and only if their digests, page indices and formats are equal |
| `Naming.DefaultKeyIsPng` | src/main.rs:20-24 | a key made in the default format ends in ".png" |
| `Render.Survivors` | src/main.rs:160-181 | the indices of the pages that produced bytes form a strictly increasing sequence within `0..pageCount` that contains every such page and no other |
| `Render.CollectImages` | src/main.rs:160-181 | the enumerate/flat_map/collect chain gives one image per surviving page, in page order, named with that page's original index and holding its bytes |
| `Render.ProcessPdf` | src/main.rs:152-184 | a document that does not load gives a Pdfium error; a loaded one always succeeds, with at most one image per page, named `"{hash(bytes)}-{idx}.{ext}"` |
| `Render.ImagesComeFromPages` | src/main.rs:160-181 | never more images than pages; every image is named `"{hash}-{i}.{ext}"` after a page i that rendered and encoded, and holds that page's encoding |
| `Render.PageYieldsImageIffSucceeds` | src/main.rs:164-172 | page i has an image if and only if it both renders and encodes; a failing page is dropped without an error |
| `Render.ImageIndicesIncrease` | src/main.rs:163-177 | the page indices read back from the image names strictly increase, so a failed page leaves a gap instead of renumbering later pages |
| `Render.ProcessPdfPages` | src/main.rs:160-181 | never more images than pages; page i gives an image if and only if it renders and encodes, and then exactly one, named for i and holding its encoding; the indices in the names strictly increase |
| `Render.KeysAreContentAddressed` | src/main.rs:156-177 | for the same bytes and format, two images have equal keys if and only if they have equal page indices, whatever else differs; uploads with different digests never share a key |
| `Upload.PutImage` | src/main.rs:133-144 | an upload succeeds exactly when the store accepts it and then returns the image's own name; otherwise it returns the store's error as an S3 error |
| `Upload.PickPermutation` | src/main.rs:240-244 | taking results in any completion order gives the same results, each as often, as taking them in spawn order |
| `Upload.UploadAll` | src/main.rs:233-244 | the result is a success if and only if every upload succeeded; then it has one entry per image, in completion order, and is a permutation of the image names; otherwise it is the S3 error of the first failed upload in completion order |
| `Handler.HandlePdfUpload` | src/main.rs:219-250 | each stage before the uploads stops at its first error: Multipart, then FieldNotFound, then Multipart for an unreadable body, then Task, then Pdfium; after that, success exactly when every upload succeeded, with one key per rendered page, each the key of a page that rendered and encoded |
| `Handler.UploadedKeysArePageKeys` | src/main.rs:231-244 | any reordering of the image names of a loaded document lists only keys `"{hash}-{i}.{ext}"` of pages i that rendered and encoded |
| `Handler.Respond` | src/main.rs:246-249 | the status is 200 if and only if the handler succeeded, and then the body is the upload response; a failure gives 400 exactly for client errors and 500 otherwise, with the message `into_response` chooses for that error |
| `Errors.IntoResponse` | src/main.rs:276-303 | Multipart and FieldNotFound give 400, every other error gives 500; the message is "Internal Server Error" if and only if the status is 500; each client error has its own message |
| `Errors.ReplyHidesDetail` | src/main.rs:276-303 | all server-side errors give the same reply, whatever their variant and detail |
| `Config.BodyLimitAsWritten` | src/main.rs:200 | the limit is 250 MiB when none is configured, and the configured megabytes in bytes while that product fits in a 64-bit `usize` |
| `Config.BodyLimitWrapsToZero` | src/main.rs:200 | a configured limit of 2^44 megabytes wraps to zero bytes, below the limit for 1 megabyte |
| `Config.BodyLimit` | src/main.rs:200 | with saturating multiplication the limit is the configured megabytes in bytes, or `usize::MAX` when that does not fit; 250 MiB by default |
| `Config.BodyLimitMonotone` | src/main.rs:200 | with saturating multiplication, configuring more megabytes never lowers the limit, and the limit is never below what was configured |

## Left out

- Loading the PDF, rendering pages, `adjust_contrast(0.1)` and encoding with `write_to` are calls into pdfium and the image crate, and the contrast step is floating-point work. They enter as a parameter: the load `Result` (or, in the handler, a function of the uploaded bytes), one `Option` per page and an encoder function.
- The blake3 hash enters as a function to 64-digit lower-case hex strings. Hash collisions are not modelled: different bytes with the same digest would share keys.
- The S3 client, its credentials, its endpoint and `ObjectStorage::new` are network and SDK plumbing. The store's answer to each upload is a parameter. The bucket's contents are not modelled, so the model does not state that the uploads that succeeded stay stored when another one fails.
- Concurrency in tokio (`spawn_blocking`, `JoinSet`) is left out. The render task's failure is a parameter. The order in which uploads finish is a parameter that must be a permutation. A panic inside an upload task, which `join_all` would re-raise, is not modelled.
- The axum router, multipart decoding, the `Query` extractor's parsing and the `RequestBodyLimitLayer` that enforces the limit are framework code. Only the fourteen accepted format names and the default are modelled. The form's first field and its body are parameters.
- Logging through `tracing`, the subscriber setup, environment parsing through parenv and the TCP listener in `main` are left out.
- Page indices are `usize` in the source and `nat` here. A document with 2^64 pages cannot exist, so nothing wraps.

## Findings

| source | as written | input that shows it | evidently intended | confidence | as-written member | corrected member |
|---|---|---|---|---|---|---|
| src/main.rs:200 | `env.body_limit.unwrap_or(250) * 1024 * 1024` multiplies in `usize`. This wraps in a release build and panics at start-up in a debug build. | `PDF_BODY_LIMIT=17592186044416` (2^44 MB) gives a limit of 0 bytes, which refuses every request with a body | the configured megabytes in bytes, saturating (or refused at start-up) when that does not fit | not executed; medium (needs an absurdly large setting) | `Config.BodyLimitAsWritten`, `Config.BodyLimitWrapsToZero` | `Config.BodyLimit`, `Config.BodyLimitMonotone` |
