/** The closed set of output formats (`enum OutputFormat`), the encoder each
    one selects, the file extension each one gives its images, and the name
    by which a request's `format` query parameter picks it. */
module Formats {
  import opened Wrappers

  datatype OutputFormat =
    | Png | Jpeg | Gif | WebP | Pnm | Tiff | Tga
    | Bmp | Ico | Hdr | OpenExr | Farbfeld | Avif | Qoi

  /** The encoders of the image library that the service hands each page to. */
  datatype ImageFormat =
    | PngEncoder | JpegEncoder | GifEncoder | WebPEncoder | PnmEncoder
    | TiffEncoder | TgaEncoder | BmpEncoder | IcoEncoder | HdrEncoder
    | OpenExrEncoder | FarbfeldEncoder | AvifEncoder | QoiEncoder

  /** `#[default]`: the format used when a request names none. */
  function DefaultFormat(): (f: OutputFormat)
    ensures Extension(f) == "png"
  {
    Png
  }

  /** `OutputFormat::as_image_format`: each format picks its own encoder. */
  function AsImageFormat(f: OutputFormat): (enc: ImageFormat)
    ensures EncoderFormat(enc) == f
  {
    match f
    case Png => PngEncoder
    case Jpeg => JpegEncoder
    case Gif => GifEncoder
    case WebP => WebPEncoder
    case Pnm => PnmEncoder
    case Tiff => TiffEncoder
    case Tga => TgaEncoder
    case Bmp => BmpEncoder
    case Ico => IcoEncoder
    case Hdr => HdrEncoder
    case OpenExr => OpenExrEncoder
    case Farbfeld => FarbfeldEncoder
    case Avif => AvifEncoder
    case Qoi => QoiEncoder
  }

  /** The format an encoder belongs to: the inverse of `AsImageFormat`. */
  function EncoderFormat(enc: ImageFormat): OutputFormat {
    match enc
    case PngEncoder => Png
    case JpegEncoder => Jpeg
    case GifEncoder => Gif
    case WebPEncoder => WebP
    case PnmEncoder => Pnm
    case TiffEncoder => Tiff
    case TgaEncoder => Tga
    case BmpEncoder => Bmp
    case IcoEncoder => Ico
    case HdrEncoder => Hdr
    case OpenExrEncoder => OpenExr
    case FarbfeldEncoder => Farbfeld
    case AvifEncoder => Avif
    case QoiEncoder => Qoi
  }

  /** `OutputFormat::extension`. Every extension is a non-empty word of
      lower-case letters (so it never holds the '.' or '-' that separate the
      parts of an object key), and the format can be read back from it. */
  function Extension(f: OutputFormat): (ext: string)
    ensures |ext| > 0
    ensures forall i :: 0 <= i < |ext| ==> 'a' <= ext[i] <= 'z'
    ensures FromExtension(ext) == Some(f)
  {
    match f
    case Png => "png"
    case Jpeg => "jpg"
    case Gif => "gif"
    case WebP => "webp"
    case Pnm => "pnm"
    case Tiff => "tiff"
    case Tga => "tga"
    case Bmp => "bmp"
    case Ico => "ico"
    case Hdr => "hdr"
    case OpenExr => "exr"
    case Farbfeld => "ff"
    case Avif => "avif"
    case Qoi => "qoi"
  }

  /** The format whose extension is `ext`, if any. */
  function FromExtension(ext: string): Option<OutputFormat> {
    if ext == "png" then Some(Png)
    else if ext == "jpg" then Some(Jpeg)
    else if ext == "gif" then Some(Gif)
    else if ext == "webp" then Some(WebP)
    else if ext == "pnm" then Some(Pnm)
    else if ext == "tiff" then Some(Tiff)
    else if ext == "tga" then Some(Tga)
    else if ext == "bmp" then Some(Bmp)
    else if ext == "ico" then Some(Ico)
    else if ext == "hdr" then Some(Hdr)
    else if ext == "exr" then Some(OpenExr)
    else if ext == "ff" then Some(Farbfeld)
    else if ext == "avif" then Some(Avif)
    else if ext == "qoi" then Some(Qoi)
    else None
  }

  /** `FromExtension` accepts exactly the fourteen extensions. */
  lemma FromExtensionExact(ext: string, f: OutputFormat)
    ensures FromExtension(ext) == Some(f) <==> ext == Extension(f)
  {
    if FromExtension(ext) == Some(f) {
      match f
      case Png => assert ext == "png";
      case Jpeg => assert ext == "jpg";
      case Gif => assert ext == "gif";
      case WebP => assert ext == "webp";
      case Pnm => assert ext == "pnm";
      case Tiff => assert ext == "tiff";
      case Tga => assert ext == "tga";
      case Bmp => assert ext == "bmp";
      case Ico => assert ext == "ico";
      case Hdr => assert ext == "hdr";
      case OpenExr => assert ext == "exr";
      case Farbfeld => assert ext == "ff";
      case Avif => assert ext == "avif";
      case Qoi => assert ext == "qoi";
    }
  }

  /** No two formats share an extension, so an image's extension names its
      format. */
  lemma ExtensionInjective(f: OutputFormat, g: OutputFormat)
    ensures Extension(f) == Extension(g) <==> f == g
  {
    assert FromExtension(Extension(f)) == Some(f);
    assert FromExtension(Extension(g)) == Some(g);
  }

  /** The name a request's `format` query parameter uses for each format:
      the variant's name in lower case (`rename_all = "lowercase"`), with
      `webp` and `openexr` renamed explicitly to the same lower-case names. */
  function QueryName(f: OutputFormat): (name: string)
    ensures ParseQueryName(name) == Some(f)
  {
    match f
    case Png => "png"
    case Jpeg => "jpeg"
    case Gif => "gif"
    case WebP => "webp"
    case Pnm => "pnm"
    case Tiff => "tiff"
    case Tga => "tga"
    case Bmp => "bmp"
    case Ico => "ico"
    case Hdr => "hdr"
    case OpenExr => "openexr"
    case Farbfeld => "farbfeld"
    case Avif => "avif"
    case Qoi => "qoi"
  }

  /** The format a query name selects; `None` for a name the deserialiser
      rejects. */
  function ParseQueryName(name: string): Option<OutputFormat> {
    if name == "png" then Some(Png)
    else if name == "jpeg" then Some(Jpeg)
    else if name == "gif" then Some(Gif)
    else if name == "webp" then Some(WebP)
    else if name == "pnm" then Some(Pnm)
    else if name == "tiff" then Some(Tiff)
    else if name == "tga" then Some(Tga)
    else if name == "bmp" then Some(Bmp)
    else if name == "ico" then Some(Ico)
    else if name == "hdr" then Some(Hdr)
    else if name == "openexr" then Some(OpenExr)
    else if name == "farbfeld" then Some(Farbfeld)
    else if name == "avif" then Some(Avif)
    else if name == "qoi" then Some(Qoi)
    else None
  }

  /** `UploadQuery` with `#[serde(default)]`: an absent `format` parameter
      means the default format; a present one must be one of the fourteen
      query names, or the request is refused before the handler runs. */
  function ResolveFormat(param: Option<string>): (r: Option<OutputFormat>)
    ensures param.None? ==> r == Some(Png)
    ensures param.Some? ==> (r.Some? <==> exists f :: QueryName(f) == param.value)
    ensures r.Some? && param.Some? ==> QueryName(r.value) == param.value
  {
    match param
    case None => Some(DefaultFormat())
    case Some(name) =>
      QueryNameExact(name);
      ParseQueryName(name)
  }

  /** `ParseQueryName` accepts exactly the fourteen query names. */
  lemma QueryNameExact(name: string)
    ensures ParseQueryName(name).Some? ==> QueryName(ParseQueryName(name).value) == name
    ensures (exists f :: QueryName(f) == name) ==> ParseQueryName(name).Some?
  {
    if exists f :: QueryName(f) == name {
      var f :| QueryName(f) == name;
      assert ParseQueryName(name) == Some(f);
    }
  }
}
