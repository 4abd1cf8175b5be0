/** `process_pdf`: load the document, hash the uploaded bytes, then render and
    encode every page, keeping only the pages for which both steps succeed,
    each named after its original page index. */
module Render {
  import opened Wrappers
  import opened Errors
  import opened Formats
  import opened Naming

  /** A page rendered to a raster (with the contrast adjustment applied). */
  type Bitmap = seq<bv8>

  /** The image library's `write_to`: encodes a raster in a format, or fails. */
  type Encoder = (Bitmap, ImageFormat) -> Option<Bytes>

  /** A loaded document: the outcome of rendering each page, in page order. */
  datatype Document = Document(pages: seq<Option<Bitmap>>)

  /** `PdfImage`: an encoded page and the object key it is stored under. */
  datatype PdfImage = PdfImage(name: string, stream: Bytes)

  /** The body of the `flat_map` closure for one page: the encoded bytes, or
      `None` when rendering or encoding failed (the two `.ok()?`). */
  function PageOutput(page: Option<Bitmap>, encode: Encoder, enc: ImageFormat): Option<Bytes> {
    match page
    case None => None
    case Some(bitmap) => encode(bitmap, enc)
  }

  function PageOutputs(pages: seq<Option<Bitmap>>, encode: Encoder, enc: ImageFormat): (out: seq<Option<Bytes>>)
    ensures |out| == |pages|
    ensures forall i :: 0 <= i < |pages| ==> out[i] == PageOutput(pages[i], encode, enc)
  {
    seq(|pages|, i requires 0 <= i < |pages| => PageOutput(pages[i], encode, enc))
  }

  /** The indices, from `from` on, of the pages that produced an image: a
      strictly increasing sequence that holds every such index and no other. */
  function Survivors<T>(out: seq<Option<T>>, from: nat): (ix: seq<nat>)
    requires from <= |out|
    decreases |out| - from
    ensures |ix| <= |out| - from
    ensures forall k :: 0 <= k < |ix| ==> from <= ix[k] < |out| && out[ix[k]].Some?
    ensures forall k, l :: 0 <= k < l < |ix| ==> ix[k] < ix[l]
    ensures forall i :: from <= i < |out| && out[i].Some? ==> i in ix
  {
    if from == |out| then []
    else if out[from].Some? then [from] + Survivors(out, from + 1)
    else Survivors(out, from + 1)
  }

  /** `enumerate().flat_map(..).collect()` from page `from` on: one image per
      page that produced bytes, named with the page's own index. */
  function CollectImages(id: Digest, format: OutputFormat, out: seq<Option<Bytes>>, from: nat): (images: seq<PdfImage>)
    requires from <= |out|
    decreases |out| - from
    ensures var ix := Survivors(out, from);
      |images| == |ix| &&
      forall k :: 0 <= k < |ix| ==> images[k] == PdfImage(ObjectKey(id, ix[k], format), out[ix[k]].value)
  {
    if from == |out| then []
    else
      match out[from]
      case None => CollectImages(id, format, out, from + 1)
      case Some(bytes) => [PdfImage(ObjectKey(id, from, format), bytes)] + CollectImages(id, format, out, from + 1)
  }

  /** `process_pdf`. A document that does not load is a `Pdfium` error; a
      loaded one always succeeds, with the images of the pages that rendered
      and encoded, in page order. */
  function ProcessPdf(hash: Hasher, bytes: Bytes, format: OutputFormat,
                      document: Result<Document, PdfiumError>, encode: Encoder): (r: Result<seq<PdfImage>, AppError>)
    ensures document.Failure? <==> r.Failure?
    ensures document.Failure? ==> r.error == Pdfium(document.error)
    ensures document.Success? ==>
      var out := PageOutputs(document.value.pages, encode, AsImageFormat(format));
      var ix := Survivors(out, 0);
      |r.value| == |ix| <= |document.value.pages| &&
      forall k :: 0 <= k < |ix| ==> r.value[k] == PdfImage(ObjectKey(hash(bytes), ix[k], format), out[ix[k]].value)
  {
    match document
    case Failure(e) => Failure(Pdfium(e))
    case Success(doc) =>
      var id := hash(bytes);
      var out := PageOutputs(doc.pages, encode, AsImageFormat(format));
      Success(CollectImages(id, format, out, 0))
  }

  /** Whether page `i` of a loaded document both renders and encodes. */
  predicate PageSucceeds(doc: Document, encode: Encoder, format: OutputFormat, i: nat)
    requires i < |doc.pages|
  {
    doc.pages[i].Some? && encode(doc.pages[i].value, AsImageFormat(format)).Some?
  }

  /** Every image of a loaded document comes from one page that rendered
      and encoded: it is named `"{hash}-{i}.{ext}"` after that page and holds
      its encoding. So there are never more images than pages. */
  lemma ImagesComeFromPages(hash: Hasher, bytes: Bytes, format: OutputFormat, doc: Document, encode: Encoder)
    ensures var r := ProcessPdf(hash, bytes, format, Success(doc), encode);
      r.Success? && |r.value| <= |doc.pages| &&
      forall k :: 0 <= k < |r.value| ==>
        exists i :: 0 <= i < |doc.pages| && PageSucceeds(doc, encode, format, i) &&
          r.value[k] == PdfImage(ObjectKey(hash(bytes), i, format),
                                 encode(doc.pages[i].value, AsImageFormat(format)).value)
  {
    var r := ProcessPdf(hash, bytes, format, Success(doc), encode);
    var enc := AsImageFormat(format);
    var out := PageOutputs(doc.pages, encode, enc);
    var ix := Survivors(out, 0);
    forall k | 0 <= k < |r.value|
      ensures exists i :: 0 <= i < |doc.pages| && PageSucceeds(doc, encode, format, i) &&
                r.value[k] == PdfImage(ObjectKey(hash(bytes), i, format), encode(doc.pages[i].value, enc).value)
    {
      var i := ix[k];
      assert out[i] == PageOutput(doc.pages[i], encode, enc);
      assert PageSucceeds(doc, encode, format, i);
      assert r.value[k] == PdfImage(ObjectKey(hash(bytes), i, format), encode(doc.pages[i].value, enc).value);
    }
  }

  /** Page `i` of a loaded document has an image exactly when it renders and
      encodes; a page that fails is dropped without an error. */
  lemma PageYieldsImageIffSucceeds(hash: Hasher, bytes: Bytes, format: OutputFormat, doc: Document, encode: Encoder)
    ensures var r := ProcessPdf(hash, bytes, format, Success(doc), encode);
      r.Success? &&
      forall i :: 0 <= i < |doc.pages| ==>
        (PageSucceeds(doc, encode, format, i) <==>
         exists k :: 0 <= k < |r.value| && r.value[k].name == ObjectKey(hash(bytes), i, format))
  {
    var r := ProcessPdf(hash, bytes, format, Success(doc), encode);
    var enc := AsImageFormat(format);
    var out := PageOutputs(doc.pages, encode, enc);
    var ix := Survivors(out, 0);
    var id := hash(bytes);
    forall i | 0 <= i < |doc.pages|
      ensures PageSucceeds(doc, encode, format, i) <==>
        exists k :: 0 <= k < |r.value| && r.value[k].name == ObjectKey(id, i, format)
    {
      assert out[i] == PageOutput(doc.pages[i], encode, enc);
      if PageSucceeds(doc, encode, format, i) {
        assert out[i].Some?;
        assert i in ix;
        var k :| 0 <= k < |ix| && ix[k] == i;
        assert r.value[k].name == ObjectKey(id, i, format);
      }
      if k :| 0 <= k < |r.value| && r.value[k].name == ObjectKey(id, i, format) {
        assert r.value[k].name == ObjectKey(id, ix[k], format);
        ObjectKeyInjective(id, ix[k], format, id, i, format);
        assert out[ix[k]].Some?;
      }
    }
  }

  /** The page index read back from each image's name is the page it came
      from, and these indices strictly increase along the images: a failed
      page leaves a gap rather than renumbering the pages after it. */
  lemma ImageIndicesIncrease(hash: Hasher, bytes: Bytes, format: OutputFormat, doc: Document, encode: Encoder)
    ensures var r := ProcessPdf(hash, bytes, format, Success(doc), encode);
      r.Success? &&
      forall k, l :: 0 <= k < l < |r.value| ==>
        ParseKey(r.value[k].name).value.index < ParseKey(r.value[l].name).value.index
  {
    var r := ProcessPdf(hash, bytes, format, Success(doc), encode);
    var ix := Survivors(PageOutputs(doc.pages, encode, AsImageFormat(format)), 0);
    var id := hash(bytes);
    forall k | 0 <= k < |r.value|
      ensures ParseKey(r.value[k].name) == Some(KeyParts(id, ix[k], format))
    {
      assert r.value[k].name == ObjectKey(id, ix[k], format);
    }
  }

  /** What `process_pdf` promises about a loaded document, page by page:
      - there are never more images than pages;
      - page `i` yields an image exactly when it renders and encodes, and then
        exactly one, named `"{hash}-{i}.{ext}"` and holding the encoding;
      - the page indices in the names strictly increase, so a failed page
        leaves a gap rather than renumbering the pages after it. */
  lemma ProcessPdfPages(hash: Hasher, bytes: Bytes, format: OutputFormat, doc: Document, encode: Encoder)
    ensures var r := ProcessPdf(hash, bytes, format, Success(doc), encode);
      r.Success? && |r.value| <= |doc.pages| &&
      (forall k :: 0 <= k < |r.value| ==>
         exists i :: 0 <= i < |doc.pages| && PageSucceeds(doc, encode, format, i) &&
           r.value[k] == PdfImage(ObjectKey(hash(bytes), i, format),
                                  encode(doc.pages[i].value, AsImageFormat(format)).value)) &&
      (forall i :: 0 <= i < |doc.pages| ==>
         (PageSucceeds(doc, encode, format, i) <==>
          exists k :: 0 <= k < |r.value| && r.value[k].name == ObjectKey(hash(bytes), i, format))) &&
      (forall k, l :: 0 <= k < l < |r.value| ==>
         ParseKey(r.value[k].name).value.index < ParseKey(r.value[l].name).value.index)
  {
    ImagesComeFromPages(hash, bytes, format, doc, encode);
    PageYieldsImageIffSucceeds(hash, bytes, format, doc, encode);
    ImageIndicesIncrease(hash, bytes, format, doc, encode);
  }

  /** Keys depend on nothing but the bytes, the page index and the format:
      two uploads of the same bytes in the same format give any page that
      succeeds in both the same key, however the rest of the rendering went;
      two uploads whose digests differ never share a key. */
  lemma {:induction false} KeysAreContentAddressed(hash: Hasher, bytes1: Bytes, bytes2: Bytes, format: OutputFormat,
                                                   doc1: Document, doc2: Document, encode1: Encoder, encode2: Encoder)
    ensures var r1 := ProcessPdf(hash, bytes1, format, Success(doc1), encode1);
            var r2 := ProcessPdf(hash, bytes2, format, Success(doc2), encode2);
      (bytes1 == bytes2 ==> forall k1, k2 :: 0 <= k1 < |r1.value| && 0 <= k2 < |r2.value| ==>
         (r1.value[k1].name == r2.value[k2].name <==>
          ParseKey(r1.value[k1].name).value.index == ParseKey(r2.value[k2].name).value.index)) &&
      (hash(bytes1) != hash(bytes2) ==> forall k1, k2 :: 0 <= k1 < |r1.value| && 0 <= k2 < |r2.value| ==>
         r1.value[k1].name != r2.value[k2].name)
  {
    var r1 := ProcessPdf(hash, bytes1, format, Success(doc1), encode1);
    var r2 := ProcessPdf(hash, bytes2, format, Success(doc2), encode2);
    var ix1 := Survivors(PageOutputs(doc1.pages, encode1, AsImageFormat(format)), 0);
    var ix2 := Survivors(PageOutputs(doc2.pages, encode2, AsImageFormat(format)), 0);
    forall k1, k2 | 0 <= k1 < |r1.value| && 0 <= k2 < |r2.value|
      ensures ParseKey(r1.value[k1].name).value.index == ix1[k1]
      ensures ParseKey(r2.value[k2].name).value.index == ix2[k2]
      ensures r1.value[k1].name == r2.value[k2].name <==> hash(bytes1) == hash(bytes2) && ix1[k1] == ix2[k2]
    {
      ObjectKeyInjective(hash(bytes1), ix1[k1], format, hash(bytes2), ix2[k2], format);
    }
  }
}
