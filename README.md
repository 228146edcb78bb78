# placesloth — a Dafny model of the request path

placesloth is a small Rocket web service that answers `GET /{W}/{H}[.{ext}]`
with a sloth photograph resized and centre-cropped to W×H pixels and encoded as
JPEG, PNG, GIF, ICO or BMP. The photographs are compiled into the binary:
src/main.rs writes out a flat array `SLOTH_IMAGES` of 15 `include_bytes!` JPEG
blobs, and the separate proc-macro crate `make_sloth_images_array!` generates a
declaration of the same shape from a listing of the image directory (main.rs
does not call it).
Two in-memory caches avoid repeated work: decoded images by index, and encoded
responses by the key `"{W}x{H}.{ext}"`.

This project models that request path and proves properties of it:

- `Decimal` — `format!("{}", n)` and `str::parse::<u32>` (optional leading `+`,
  decimal digits only, overflow is an error).
- `Paths` — `Path::file_name`, `file_stem` and `extension` on the path tail
  (the split is at the final `.`; a name whose only `.` is its first character
  has no extension).
- `Transform` — `resize_image` (a square of side max(W, H), W on a tie) and
  `crop_image` (the centred crop origin with guarded unsigned subtraction).
  The `image` crate is a `Codec` value of four opaque functions (decode,
  `resize_to_fill`, `crop_imm`, `write_to`); `WellBehaved` states the output
  sizes the crate documents for `resize_to_fill` and `crop_imm`.
- `Requests` — the validation part of `placesloth`: stem and extension, the
  2000-pixel limit, the six-entry extension table and the cache key.
- `Service` — the decoded-image cache and the response cache as classes with a
  `map` field, `PickRandomSlothImage`, `Placesloth` and `Favicon` as methods
  that update them, the pure specification `Handle` they are proved against,
  and the 400 and 500 catcher bodies.
- `ImagesMacro` — `make_sloth_images_array` as a loop that pushes one
  `include_bytes!` element per listed file, proved to produce the header, the
  elements in listing order, and `];`.

Every `expect` in the handler (a tail with no file name, a blob that fails to
decode, an encoder error) is a panic, which Rocket answers with a 500; the
model returns `Failure(InternalServerError)` on those paths instead of
forbidding them.

The two random draws of `pick_random_sloth_image` are the parameters `index`
(the cache key) and `chosen` (the blob that is decoded on a miss). The code
draws them independently, so on a miss the image cached under `index` is the
decoding of blob `chosen`, which need not be blob `index`; the model keeps this
behaviour
(`Service.MissDecodesChosenBlob`). What does hold, and is proved, is that every
cached image is the decoding of some blob of the corpus.

Three facts about the code that the model keeps: `pick_random_sloth_image`
draws from the one array of 15 images; the cache key uses the extension
as written, so `jpg` and `jpeg` requests are cached apart
(`Requests.JpgAndJpegKeysDiffer`); and a width or height of zero is accepted
(`Requests.RequestRoundTrip`).

## Model

| member | source | states |
|---|---|---|
| Decimal.Format | src/main.rs:118 | the decimal text written into the cache key is non-empty, all digits, and has no leading zero |
| Decimal.FormatValue | src/main.rs:118 | the digits written by `format!` denote exactly the number formatted |
| Decimal.ParseU32 | src/main.rs:93 | a text accepted as a `u32` is one or more decimal digits, optionally after a single leading `+` (a lone `+` is refused), and the digits after the optional `+` denote the result; any text containing `-` is refused |
| Decimal.ParseFormat | src/main.rs:93 | parsing the decimal text of n as a `u32` succeeds exactly when n < 2^32, and then yields n |
| Decimal.FormatInjective | src/main.rs:118 | two numbers have the same decimal text if and only if they are equal |
| Decimal.ParseIgnoresLeadingZero | src/main.rs:93 | a leading `0` or a leading `+` in front of the digits does not change the parsed height |
| Paths.LastIndexOf | src/main.rs:86-93 | the position found holds the character and no later position does; -1 when it is absent |
| Paths.FileName | src/main.rs:86-93 | the file name of the tail, when there is one, is non-empty, contains no `/`, and is neither `.` nor `..` |
| Paths.FileStem | src/main.rs:93 | the tail has a stem exactly when it has a file name, and the stem is non-empty and contains no `/` |
| Paths.Extension | src/main.rs:86-87 | an extension exists only when there is a file name, and never contains `.` or `/` |
| Paths.StemIffFileName | src/main.rs:86-93 | a tail has a stem exactly when it has a file name, and without a file name it has no extension |
| Paths.SegmentIsFileName | src/main.rs:93 | an ordinary last segment, alone or after a directory prefix, is the file name |
| Paths.StemAndExtension | src/main.rs:86-93 | "stem.ext" (ext without a dot) has stem `stem` and extension `ext` |
| Paths.NoExtension | src/main.rs:86-90 | a segment without a dot is its own stem and has no extension |
| Transform.LargerRequestSize | src/main.rs:59 | the square side is at least both requested sizes, equals one of them, and is the width on a tie |
| Transform.ResizeImage | src/main.rs:58-61 | with the documented `resize_to_fill`, the resized image is a square of side max(width, height) |
| Transform.CropStart | src/main.rs:65-76 | when the request is smaller the origin fits (x + w <= W) and is centred (left margin <= right margin <= left margin + 1); otherwise it is 0 |
| Transform.CropImage | src/main.rs:64-79 | the method with mutable origin variables returns the crop at the centred origin, and a crop that fits has exactly the requested size |
| Transform.Cropped | src/main.rs:78 | with the documented `crop_imm`, the crop is never wider or taller than the request or the image, and a centred crop inside the image has exactly the requested width and height |
| Transform.ExactDimensions | src/main.rs:125-127 | resizing to the larger side and then centre-cropping always gives exactly W×H |
| Requests.FormatFor | src/main.rs:104-114 | exactly png, gif, ico, bmp, jpg and jpeg are served; png is (Png, PNG), gif (Gif, GIF), ico (Ico, Icon), bmp (Bmp, BMP), and jpg and jpeg both (Jpeg, JPEG) |
| Requests.RequestedExtension | src/main.rs:85-90 | the requested extension is the tail's extension, or `jpg` when it has none, and never contains `.` or `/` |
| Requests.Validate | src/main.rs:84-114 | a validated request keeps the width, has the parsed stem as height, both at most 2000, the extension as written (jpg by default), and the table's format and content type for it |
| Requests.MissingFileNamePanics | src/main.rs:93 | a tail without a file name reaches the `expect` and yields a 500 |
| Requests.UnparsableHeight | src/main.rs:93-98 | a stem that is not a `u32` is a 400 whatever the width and the extension |
| Requests.OutOfRange | src/main.rs:100-102 | once the height parses, a width or height above 2000 is a 400 whatever the extension |
| Requests.UnsupportedExtension | src/main.rs:104-114 | a valid size with an extension outside the table is a 400 |
| Requests.ValidIff | src/main.rs:86-114 | validation succeeds if and only if the stem exists and parses, both sizes are at most 2000, and the extension is in the table |
| Requests.RequestRoundTrip | src/main.rs:86-114 | validating "{H}.{ext}" for any width and height up to 2000 (zero included) and any table extension gives back that request |
| Requests.DefaultsToJpg | src/main.rs:86-90 | a tail that is just the height is served as a jpg JPEG |
| Requests.LeadingZeroSameRequest | src/main.rs:93-118 | "0{H}.{ext}" is validated to the same request, hence the same cache key, as "{H}.{ext}" |
| Requests.CacheKey | src/main.rs:118 | the key is the width's digits up to its first `x`, and ends in `.` followed by the extension as written; its length is the sum of the parts plus the two separators |
| Requests.KeyTextSplit | src/main.rs:118 | text of the shape "{digits}x{digits}.{ext}" determines the two digit strings and the extension |
| Requests.CacheKeyInjective | src/main.rs:118 | two cache keys are equal if and only if width, height and extension as written are equal |
| Requests.JpgAndJpegKeysDiffer | src/main.rs:109-118 | jpg and jpeg requests of the same size use different cache keys |
| Requests.KeyDeterminesRequest | src/main.rs:118 | two valid requests with the same key are the same request |
| Requests.FaviconRequest | src/main.rs:153-155 | the favicon's width 64 and tail "64.ico" validate to a 64×64 ICO request with content type Icon |
| Requests.FaviconKey | src/main.rs:118 | the favicon request is cached under "64x64.ico" |
| Requests.FaviconIconKey | src/main.rs:153-155 | the favicon request validates, has content type Icon, and its key is "64x64.ico" |
| Requests.WidthTooLarge | src/main.rs:100-102 | "/2001/100" is a 400 |
| Requests.UnknownExtension | src/main.rs:104-114 | "/100/100.{ext}" is a 400 for every extension outside the table, e.g. "tiff", "PNG" and the empty one |
| Service.PickSloth | src/main.rs:38-54 | a successful pick is the image then cached under `index`; the cache gains at most the key `index`, and no existing entry changes |
| Service.PickCachesIndex | src/main.rs:41-52 | a pick succeeds exactly on a hit or a decodable blob; afterwards `index` maps to the returned image, the key set grows by `index` only, existing entries stay, and a failed decode changes nothing |
| Service.MissDecodesChosenBlob | src/main.rs:42-51 | on every miss the decoding of blob `chosen` is returned and stored under `index`, and the cache is otherwise unchanged; when blobs `index` and `chosen` decode differently, the stored image is therefore not the decoding of blob `index` |
| Service.PickKeepsImagesFromCorpus | src/main.rs:46-52 | every cached image stays the decoding of some corpus blob, and so does the returned image |
| Service.Encoded | src/main.rs:126-132 | with the documented image sizes, a successful encoding serves the request: it is the encoding, in the requested format, of an image of exactly W×H |
| Service.Handle | src/main.rs:84-139 | only a validated request succeeds; a failure caches no response; neither cache ever loses a key |
| Service.HandleInvalid | src/main.rs:93-114 | an invalid request returns its status and leaves both caches unchanged |
| Service.HandleHit | src/main.rs:120-121 | on a hit the stored response is returned and both caches are unchanged, whatever the draws |
| Service.HandleFrame | src/main.rs:120-137 | existing responses are never changed or removed; the cache is either unchanged or, after a successful miss, the old cache with the key set to the returned response |
| Service.SuccessIsCached | src/main.rs:120-137 | after a successful answer the request's key maps to that answer |
| Service.RepeatedRequest | src/main.rs:120-137 | repeating a request that succeeded returns the same response and changes nothing, whatever the new draws |
| Service.HandleKeepsImagesFromCorpus | src/main.rs:125 | handling a request keeps every decoded image a decoding of the corpus |
| Service.HandleServes | src/main.rs:104-137 | with the documented image sizes, every successful answer (hit or miss) has the extension's content type and encodes an image of exactly W×H in the requested format, and the cache keeps that property |
| Service.FaviconOutcome | src/main.rs:153-155 | a successful favicon is an image/x-icon response cached under "64x64.ico" |
| Service.EmptyCachesValid | src/main.rs:165-166 | the empty caches created at launch satisfy both cache invariants |
| Service.ImageCache.constructor | src/main.rs:166 | the decoded-image cache starts empty |
| Service.ResponseCache.constructor | src/main.rs:165 | the response cache starts empty |
| Service.PickRandomSlothImage | src/main.rs:38-54 | the method's result and the new cache are those of `PickSloth` (hit: stored image, nothing changes; miss: decoding of blob `chosen` stored under `index`), and after success `index` is cached |
| Service.Placesloth | src/main.rs:84-139 | for any codec, the method's result and both new caches are those of `Handle`; with the documented image sizes and a valid response cache, the cache stays valid and every success serves the request |
| Service.Favicon | src/main.rs:152-155 | for any codec, the favicon behaves exactly as the handler with width 64 and tail "64.ico"; with the documented image sizes and a valid response cache, a success is an Icon response cached under "64x64.ico" |
| Service.BadRequestBody | src/main.rs:141-144 | the 400 body is the fixed heading, then the request URI, then the fixed explanation |
| Service.BadRequestNamesUri | src/main.rs:143 | two 400 bodies are equal if and only if their URIs are |
| Service.InternalServerErrorBody | src/main.rs:146-149 | the 500 body starts with the fixed heading "500 Internal Server Error" and two newlines |
| ImagesMacro.IncludeLines | include_images_proc_macro/src/lib.rs:9-11 | one `include_bytes!` element per file name, in listing order |
| ImagesMacro.MakeSlothImagesArray | include_images_proc_macro/src/lib.rs:6-16 | the loop yields the header, then every listed file's element in order, then "];" |
| ImagesMacro.ConcatAppend | include_images_proc_macro/src/lib.rs:15 | joining with the empty separator distributes over appending lists of pieces |
| ImagesMacro.ConcatLength | include_images_proc_macro/src/lib.rs:15 | the joined text is as long as the sum of the piece lengths |
| ImagesMacro.Framing | include_images_proc_macro/src/lib.rs:7-13 | the output begins with `const SLOTH_IMAGES: &[&[u8]] = &[` and ends with `];` |
| ImagesMacro.EmptyListing | include_images_proc_macro/src/lib.rs:7-15 | an empty listing gives `const SLOTH_IMAGES: &[&[u8]] = &[];` |
| ImagesMacro.GeneratedLength | include_images_proc_macro/src/lib.rs:7-15 | the output length is the header's plus the elements' plus the footer's |
| ImagesMacro.ConcatSplit | include_images_proc_macro/src/lib.rs:15 | the joined text splits around any one piece: the pieces before it, the piece, the pieces after it |
| ImagesMacro.ElementInOrder | include_images_proc_macro/src/lib.rs:9-15 | in the joined elements, file k's element comes right after the elements of the files before it and right before those of the files after it |

## Left out

- Rocket routing, `State`, request guards, the `FromParam` parse of the width and the `FromSegments` checks on the tail: the width is a `u32` parameter and the tail a string.
- The mapping of `Err(Status)` to the catchers and of a panic to a 500 by Rocket: the handler returns the status, and the catcher bodies are separate functions.
- The `Mutex` locks and the separate lock acquisitions for "contains" and "get"/"insert": the model is single-threaded, so the concurrent double work and overwrite the code allows are not modelled.
- The `image` crate (JPEG decoding, `resize_to_fill` with the triangle filter, `crop_imm`, `write_to`): opaque functions of a `Codec`; only their documented output sizes are stated, in `WellBehaved`.
- Transform.ResizeImage: states only the output size of `resize_to_fill`, not which pixels it keeps.
- The random-number generator (`thread_rng`, `Uniform`, `choose`): its draws are the parameters `index` and `chosen`, required below 15 as the source's ranges guarantee.
- The bytes of the embedded photographs, `INDEX_HTML`, the `index` route and the `rocket` launch function (only the two empty caches it creates are modelled, as constructors).
- `fs::read_dir`, the `unwrap`s on its entries and on non-UTF-8 names, and the final `TokenStream` parse in the macro: the model takes the listing as a sequence of names and returns the source text.
- The `to_str().unwrap()` calls on the tail: a Dafny string is always valid text.
