/**
 * Request validation in `placesloth` (src/main.rs): the height and extension
 * taken from the path tail, the 2000-pixel limit, the extension table, and
 * the response-cache key "{W}x{H}.{ext}".
 */
module Requests {
  import opened Wrappers
  import opened Decimal
  import opened Paths
  import opened Transform

  /** The two statuses the handler fails with: 400, and 500 for a panic in the handler. */
  datatype Status = BadRequest | InternalServerError

  /** Rocket's `ContentType` constants used for images. */
  datatype ContentType = PNG | GIF | Icon | BMP | JPEG

  /** The media type each constant stands for. */
  function MediaType(ct: ContentType): string {
    match ct
    case PNG => "image/png"
    case GIF => "image/gif"
    case Icon => "image/x-icon"
    case BMP => "image/bmp"
    case JPEG => "image/jpeg"
  }

  const MaxDimension: nat := 2000
  const DefaultExtension: string := "jpg"

  /** The content type that belongs to each output format. */
  function ContentTypeOf(format: ImageFormat): ContentType {
    match format
    case Png => PNG
    case Gif => GIF
    case Ico => Icon
    case Bmp => BMP
    case Jpeg => JPEG
  }

  /**
   * The extension table: exactly six lower-case extensions are served, each
   * with its format's own content type; "jpg" and "jpeg" both mean JPEG.
   */
  function FormatFor(extension: string): (r: Option<(ImageFormat, ContentType)>)
    ensures r.Some? <==> extension in {"png", "gif", "ico", "bmp", "jpg", "jpeg"}
    ensures r.Some? ==> r.value.1 == ContentTypeOf(r.value.0)
    ensures extension == "png" ==> r == Some((Png, PNG))
    ensures extension == "gif" ==> r == Some((Gif, GIF))
    ensures extension == "ico" ==> r == Some((Ico, Icon))
    ensures extension == "bmp" ==> r == Some((Bmp, BMP))
    ensures extension == "jpg" || extension == "jpeg" ==> r == Some((Jpeg, JPEG))
  {
    match extension
    case "png" => Some((Png, PNG))
    case "gif" => Some((Gif, GIF))
    case "ico" => Some((Ico, Icon))
    case "bmp" => Some((Bmp, BMP))
    case "jpg" => Some((Jpeg, JPEG))
    case "jpeg" => Some((Jpeg, JPEG))
    case _ => None
  }

  /** A request that passed validation. */
  datatype Request = Request(width: u32, height: u32, extension: string, format: ImageFormat, contentType: ContentType)

  /** The extension of the tail, "jpg" when it has none. */
  function RequestedExtension(tail: string): (r: string)
    ensures '.' !in r && '/' !in r
    ensures Extension(tail).Some? ==> r == Extension(tail).value
    ensures Extension(tail).None? ==> r == DefaultExtension
  {
    match Extension(tail)
    case Some(e) => e
    case None => DefaultExtension
  }

  /**
   * The checks `placesloth` makes, in its order: a tail without a file name
   * panics at the `expect`; a stem that is not a `u32` is a 400; so is a width
   * or height above 2000, and then an extension outside the table.
   */
  function Validate(width: u32, tail: string): (r: Result<Request, Status>)
    ensures r.Success? ==> r.value.width == width && width <= MaxDimension && r.value.height <= MaxDimension
    ensures r.Success? ==> FileStem(tail).Some? && ParseU32(FileStem(tail).value) == Some(r.value.height)
    ensures r.Success? ==> r.value.extension == RequestedExtension(tail)
    ensures r.Success? ==> FormatFor(r.value.extension) == Some((r.value.format, r.value.contentType))
  {
    var extension := RequestedExtension(tail);
    match FileStem(tail)
    case None => Failure(InternalServerError)
    case Some(stem) =>
      match ParseU32(stem)
      case None => Failure(BadRequest)
      case Some(height) =>
        if height > MaxDimension || width > MaxDimension then Failure(BadRequest)
        else
          match FormatFor(extension)
          case None => Failure(BadRequest)
          case Some((format, contentType)) => Success(Request(width, height, extension, format, contentType))
  }

  /**
   * The response-cache key "{W}x{H}.{ext}", with the extension as written: the
   * width's digits run up to the first 'x', and the key ends in "." and the
   * extension.
   */
  function CacheKey(width: u32, height: u32, extension: string): (key: string)
    ensures var w := |Format(width)|; 0 < w < |key| && key[..w] == Format(width) && 'x' !in key[..w] && key[w] == 'x'
    ensures |key| == |Format(width)| + |Format(height)| + |extension| + 2
    ensures key[|key| - |extension| - 1..] == "." + extension
  {
    DigitsHaveNoSeparator(Format(width));
    Format(width) + "x" + Format(height) + "." + extension
  }

  function KeyOf(req: Request): string {
    CacheKey(req.width, req.height, req.extension)
  }

  // ---------------------------------------------------------------------------
  // The order of the checks

  /** A tail without a file name reaches the `expect` and panics. */
  lemma MissingFileNamePanics(width: u32, tail: string)
    requires FileName(tail).None?
    ensures Validate(width, tail) == Failure(InternalServerError)
  {
    StemIffFileName(tail);
  }

  /** A stem that is not a `u32` is a 400, whatever the width and the extension. */
  lemma UnparsableHeight(width: u32, tail: string)
    requires FileStem(tail).Some? && ParseU32(FileStem(tail).value).None?
    ensures Validate(width, tail) == Failure(BadRequest)
  {
  }

  /** Once the height parses, a width or height above 2000 is a 400, whatever the extension. */
  lemma OutOfRange(width: u32, tail: string)
    requires FileStem(tail).Some? && ParseU32(FileStem(tail).value).Some?
    requires ParseU32(FileStem(tail).value).value > MaxDimension || width > MaxDimension
    ensures Validate(width, tail) == Failure(BadRequest)
  {
  }

  /** An extension outside the table (a different case, the empty one, "tiff") is a 400. */
  lemma UnsupportedExtension(width: u32, tail: string)
    requires FileStem(tail).Some? && ParseU32(FileStem(tail).value).Some?
    requires ParseU32(FileStem(tail).value).value <= MaxDimension && width <= MaxDimension
    requires FormatFor(RequestedExtension(tail)).None?
    ensures Validate(width, tail) == Failure(BadRequest)
  {
  }

  /** Validation succeeds exactly when every check passes. */
  lemma ValidIff(width: u32, tail: string)
    ensures Validate(width, tail).Success? <==>
      FileStem(tail).Some? && ParseU32(FileStem(tail).value).Some? &&
      ParseU32(FileStem(tail).value).value <= MaxDimension && width <= MaxDimension &&
      FormatFor(RequestedExtension(tail)).Some?
  {
  }

  // ---------------------------------------------------------------------------
  // Requests written out as paths

  lemma TableExtensionIsPlain(extension: string)
    requires FormatFor(extension).Some?
    ensures extension != "" && '.' !in extension && '/' !in extension
  {
  }

  /**
   * Writing a valid request as "{H}.{ext}" and validating it gives the same
   * request back; zero is accepted like any other size up to 2000.
   */
  lemma RequestRoundTrip(width: u32, height: u32, extension: string)
    requires width <= MaxDimension && height <= MaxDimension && FormatFor(extension).Some?
    ensures Validate(width, Format(height) + "." + extension) ==
            Success(Request(width, height, extension, FormatFor(extension).value.0, FormatFor(extension).value.1))
  {
    TableExtensionIsPlain(extension);
    DigitsHaveNoSeparator(Format(height));
    StemAndExtension(Format(height), extension);
    ParseFormat(height);
  }

  /** A bare height is served as "jpg". */
  lemma DefaultsToJpg(width: u32, height: u32)
    requires width <= MaxDimension && height <= MaxDimension
    ensures Validate(width, Format(height)) == Success(Request(width, height, "jpg", Jpeg, JPEG))
  {
    DigitsHaveNoSeparator(Format(height));
    NoExtension(Format(height));
    ParseFormat(height);
  }

  /**
   * Leading zeros in the height are accepted and dropped: "/W/0100.png" is
   * the same request as "/W/100.png", so both share one cache entry.
   */
  lemma LeadingZeroSameRequest(width: u32, height: u32, extension: string)
    requires FormatFor(extension).Some?
    ensures Validate(width, "0" + Format(height) + "." + extension) == Validate(width, Format(height) + "." + extension)
  {
    TableExtensionIsPlain(extension);
    var stem := Format(height);
    DigitsHaveNoSeparator(stem);
    ZeroPrefixValue(stem);
    DigitsHaveNoSeparator("0" + stem);
    StemAndExtension(stem, extension);
    StemAndExtension("0" + stem, extension);
    ParseIgnoresLeadingZero(stem);
  }

  lemma DigitsHaveNoSeparator(s: string)
    requires AllDigits(s)
    ensures '.' !in s && '/' !in s && 'x' !in s && s != "."
  {
  }

  // ---------------------------------------------------------------------------
  // The cache key

  lemma {:induction false} SplitAtSeparator(a1: string, b1: string, a2: string, b2: string, c: char)
    requires c !in a1 && c !in a2
    requires a1 + [c] + b1 == a2 + [c] + b2
    ensures a1 == a2 && b1 == b2
  {
    var s := a1 + [c] + b1;
    assert s[|a1|] == c && s[|a2|] == c;
    assert forall k :: 0 <= k < |a1| ==> s[k] == a1[k] && a1[k] in a1;
    assert forall k :: 0 <= k < |a2| ==> s[k] == a2[k] && a2[k] in a2;
    assert |a1| == |a2|;
    assert a1 == s[..|a1|] == a2;
    assert b1 == s[|a1| + 1..] == b2;
  }

  /** Text of the shape "{digits}x{digits}.{ext}" splits back into its three parts. */
  lemma KeyTextSplit(a1: string, b1: string, e1: string, a2: string, b2: string, e2: string)
    requires AllDigits(a1) && AllDigits(b1) && AllDigits(a2) && AllDigits(b2)
    requires a1 + "x" + b1 + "." + e1 == a2 + "x" + b2 + "." + e2
    ensures a1 == a2 && b1 == b2 && e1 == e2
  {
    DigitsHaveNoSeparator(a1);
    DigitsHaveNoSeparator(a2);
    DigitsHaveNoSeparator(b1);
    DigitsHaveNoSeparator(b2);
    assert a1 + "x" + b1 + "." + e1 == a1 + ['x'] + (b1 + ['.'] + e1);
    assert a2 + "x" + b2 + "." + e2 == a2 + ['x'] + (b2 + ['.'] + e2);
    SplitAtSeparator(a1, b1 + ['.'] + e1, a2, b2 + ['.'] + e2, 'x');
    SplitAtSeparator(b1, e1, b2, e2, '.');
  }

  /** The key determines width, height and the extension as written. */
  lemma CacheKeyInjective(w1: u32, h1: u32, e1: string, w2: u32, h2: u32, e2: string)
    ensures CacheKey(w1, h1, e1) == CacheKey(w2, h2, e2) <==> (w1 == w2 && h1 == h2 && e1 == e2)
  {
    if CacheKey(w1, h1, e1) == CacheKey(w2, h2, e2) {
      KeyTextSplit(Format(w1), Format(h1), e1, Format(w2), Format(h2), e2);
      FormatInjective(w1, w2);
      FormatInjective(h1, h2);
    }
  }

  /** "jpg" and "jpeg" requests of one size are cached under different keys. */
  lemma JpgAndJpegKeysDiffer(width: u32, height: u32)
    ensures CacheKey(width, height, "jpg") != CacheKey(width, height, "jpeg")
  {
    CacheKeyInjective(width, height, "jpg", width, height, "jpeg");
  }

  /** Valid requests with the same key are the same request. */
  lemma KeyDeterminesRequest(width1: u32, tail1: string, width2: u32, tail2: string)
    requires Validate(width1, tail1).Success? && Validate(width2, tail2).Success?
    requires KeyOf(Validate(width1, tail1).value) == KeyOf(Validate(width2, tail2).value)
    ensures Validate(width1, tail1).value == Validate(width2, tail2).value
  {
    var r1, r2 := Validate(width1, tail1).value, Validate(width2, tail2).value;
    CacheKeyInjective(r1.width, r1.height, r1.extension, r2.width, r2.height, r2.extension);
  }

  // ---------------------------------------------------------------------------
  // Concrete requests

  /** "/favicon.ico" is dispatched as width 64 and tail "64.ico". */
  const FaviconWidth: u32 := 64
  const FaviconTail: string := "64.ico"
  const FaviconKeyText: string := "64x64.ico"

  lemma FaviconRequest()
    ensures Validate(FaviconWidth, FaviconTail) == Success(Request(64, 64, "ico", Ico, Icon))
  {
    assert Format(64) == "64";
    assert Format(64) + "." + "ico" == "64.ico";
    RequestRoundTrip(64, 64, "ico");
  }

  /** The favicon is cached under "64x64.ico". */
  lemma FaviconKey()
    ensures CacheKey(64, 64, "ico") == FaviconKeyText
  {
    assert Format(64) == "64";
  }

  /** The favicon request validates to an Icon request whose key is "64x64.ico". */
  lemma FaviconIconKey()
    ensures Validate(FaviconWidth, FaviconTail).Success?
    ensures Validate(FaviconWidth, FaviconTail).value.contentType == Icon
    ensures KeyOf(Validate(FaviconWidth, FaviconTail).value) == FaviconKeyText
  {
    FaviconRequest();
    FaviconKey();
  }

  /** "/2001/100" is a 400. */
  lemma WidthTooLarge()
    ensures Validate(2001, "100") == Failure(BadRequest)
  {
    assert Format(100) == "100";
    NoExtension("100");
    ParseFormat(100);
  }

  /**
   * A size that is fine with an extension outside the table is a 400: "tiff",
   * "PNG" (the table is case-sensitive) and "" (a trailing '.') among them.
   */
  lemma {:induction false} UnknownExtension(extension: string)
    requires FormatFor(extension).None? && '.' !in extension && '/' !in extension
    ensures Validate(100, "100." + extension) == Failure(BadRequest)
  {
    assert Format(100) == "100";
    assert "100." + extension == "100" + "." + extension;
    StemAndExtension("100", extension);
    ParseFormat(100);
  }
}
