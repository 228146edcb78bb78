/**
 * The request path of src/main.rs: the decoded-image cache
 * (`pick_random_sloth_image`), the response cache and handler (`placesloth`),
 * the favicon route, and the two error catchers.
 *
 * The embedded corpus `SLOTH_IMAGES` is a parameter `corpus` of 15 blobs, the
 * image library is a `Codec`, and the two random draws of
 * `pick_random_sloth_image` are the parameters `index` and `chosen`.
 */
module Service {
  import opened Wrappers
  import opened Decimal
  import opened Paths
  import opened Transform
  import opened Requests

  /** Number of embedded photographs in `SLOTH_IMAGES`. */
  const SlothImageCount: nat := 15

  /** `ImageResponse`: a content type and the encoded bytes. */
  datatype Response = Response(contentType: ContentType, body: seq<bv8>)

  /** What choosing a source image yields, and the decoded-image cache afterwards. */
  datatype Picked = Picked(image: Result<Image, Status>, cache: map<nat, Image>)

  /** What handling one request yields, and both caches afterwards. */
  datatype Outcome = Outcome(result: Result<Response, Status>, responses: map<string, Response>, images: map<nat, Image>)

  // ---------------------------------------------------------------------------
  // Specification

  /**
   * `pick_random_sloth_image` with its draws fixed: a cached image under
   * `index` is returned as is; otherwise blob `chosen` is decoded and stored
   * under `index` (a decode error panics at the `expect`, before any insert).
   */
  function PickSloth(codec: Codec, corpus: seq<Blob>, cache: map<nat, Image>, index: nat, chosen: nat): (p: Picked)
    requires |corpus| == SlothImageCount && index < SlothImageCount && chosen < SlothImageCount
    ensures p.image.Success? ==> index in p.cache && p.cache[index] == p.image.value
    ensures cache.Keys <= p.cache.Keys <= cache.Keys + {index}
    ensures forall i :: i in cache ==> p.cache[i] == cache[i]
  {
    if index in cache then Picked(Success(cache[index]), cache)
    else
      match codec.decodeJpeg(corpus[chosen])
      case None => Picked(Failure(InternalServerError), cache)
      case Some(image) => Picked(Success(image), cache[index := image])
  }

  /** Resize, centre-crop and encode a source image for a request; None is an encode error. */
  function Encoded(codec: Codec, image: Image, req: Request): (r: Option<seq<bv8>>)
    ensures WellBehaved(codec) && r.Some? ==> Serves(codec, req, Response(req.contentType, r.value))
  {
    var resized := ResizeImage(codec, image, req.width, req.height);
    codec.writeTo(Cropped(codec, resized, req.width, req.height), req.format)
  }

  /**
   * `placesloth` as a function of both caches and the draws: an invalid request
   * changes nothing; a cached key is answered from the cache; otherwise an
   * image is picked, transformed and encoded, and the response is inserted.
   */
  function Handle(codec: Codec, corpus: seq<Blob>, responses: map<string, Response>, images: map<nat, Image>,
                  width: u32, tail: string, index: nat, chosen: nat): (o: Outcome)
    requires |corpus| == SlothImageCount && index < SlothImageCount && chosen < SlothImageCount
    ensures o.result.Success? ==> Validate(width, tail).Success?
    ensures o.result.Failure? ==> o.responses == responses
    ensures responses.Keys <= o.responses.Keys && images.Keys <= o.images.Keys
  {
    match Validate(width, tail)
    case Failure(status) => Outcome(Failure(status), responses, images)
    case Success(req) =>
      var key := KeyOf(req);
      if key in responses then Outcome(Success(responses[key]), responses, images)
      else
        var picked := PickSloth(codec, corpus, images, index, chosen);
        match picked.image
        case Failure(status) => Outcome(Failure(status), responses, picked.cache)
        case Success(image) =>
          match Encoded(codec, image, req)
          case None => Outcome(Failure(InternalServerError), responses, picked.cache)
          case Some(bytes) =>
            var res := Response(req.contentType, bytes);
            Outcome(Success(res), responses[key := res], picked.cache)
  }

  /** Every cached decoded image is the decoding of some blob of the corpus, under an index below 15. */
  ghost predicate ImagesFromCorpus(codec: Codec, corpus: seq<Blob>, images: map<nat, Image>) {
    forall i :: i in images ==>
      i < SlothImageCount && exists j :: 0 <= j < |corpus| && codec.decodeJpeg(corpus[j]) == Some(images[i])
  }

  /** A request that validation can produce. */
  predicate Admissible(req: Request) {
    req.width <= MaxDimension && req.height <= MaxDimension &&
    FormatFor(req.extension) == Some((req.format, req.contentType))
  }

  /**
   * A response serves a request when it carries the request's content type
   * and its body is the encoding, in the requested format, of an image of
   * exactly the requested width and height.
   */
  ghost predicate Serves(codec: Codec, req: Request, resp: Response) {
    resp.contentType == req.contentType &&
    exists image: Image :: image.width == req.width && image.height == req.height &&
      codec.writeTo(image, req.format) == Some(resp.body)
  }

  /** Every cached response serves the admissible request its key names. */
  ghost predicate ResponsesValid(codec: Codec, responses: map<string, Response>) {
    forall key :: key in responses ==>
      exists req: Request :: Admissible(req) && KeyOf(req) == key && Serves(codec, req, responses[key])
  }

  // ---------------------------------------------------------------------------
  // Properties of the decoded-image cache

  /** After a successful pick, `index` is cached with the returned image; no other entry changes. */
  lemma PickCachesIndex(codec: Codec, corpus: seq<Blob>, cache: map<nat, Image>, index: nat, chosen: nat)
    requires |corpus| == SlothImageCount && index < SlothImageCount && chosen < SlothImageCount
    ensures var p := PickSloth(codec, corpus, cache, index, chosen);
      (p.image.Success? <==> index in cache || codec.decodeJpeg(corpus[chosen]).Some?) &&
      (p.image.Success? ==> index in p.cache && p.cache[index] == p.image.value) &&
      (p.image.Success? ==> p.cache.Keys == cache.Keys + {index}) &&
      (p.image.Failure? ==> p.cache == cache) &&
      (forall i :: i in cache ==> i in p.cache && p.cache[i] == cache[i])
  {
  }

  /** A miss stores the decoding of blob `chosen`, which need not be blob `index`. */
  lemma MissDecodesChosenBlob(codec: Codec, corpus: seq<Blob>, cache: map<nat, Image>, index: nat, chosen: nat)
    requires |corpus| == SlothImageCount && index < SlothImageCount && chosen < SlothImageCount
    requires index !in cache && codec.decodeJpeg(corpus[chosen]).Some?
    ensures var p := PickSloth(codec, corpus, cache, index, chosen);
      p.image == Success(codec.decodeJpeg(corpus[chosen]).value) &&
      p.cache == cache[index := codec.decodeJpeg(corpus[chosen]).value]
    ensures codec.decodeJpeg(corpus[index]) != codec.decodeJpeg(corpus[chosen]) ==>
      Some(PickSloth(codec, corpus, cache, index, chosen).cache[index]) != codec.decodeJpeg(corpus[index])
  {
  }

  /** Picking keeps every cached image a decoding of the corpus. */
  lemma PickKeepsImagesFromCorpus(codec: Codec, corpus: seq<Blob>, cache: map<nat, Image>, index: nat, chosen: nat)
    requires |corpus| == SlothImageCount && index < SlothImageCount && chosen < SlothImageCount
    requires ImagesFromCorpus(codec, corpus, cache)
    ensures ImagesFromCorpus(codec, corpus, PickSloth(codec, corpus, cache, index, chosen).cache)
    ensures PickSloth(codec, corpus, cache, index, chosen).image.Success? ==>
      exists j :: 0 <= j < |corpus| && codec.decodeJpeg(corpus[j]) == Some(PickSloth(codec, corpus, cache, index, chosen).image.value)
  {
    var p := PickSloth(codec, corpus, cache, index, chosen);
    if index !in cache && p.image.Success? {
      forall i | i in p.cache
        ensures i < SlothImageCount && exists j :: 0 <= j < |corpus| && codec.decodeJpeg(corpus[j]) == Some(p.cache[i])
      {
        if i == index {
          assert codec.decodeJpeg(corpus[chosen]) == Some(p.cache[i]);
        } else {
          assert p.cache[i] == cache[i];
        }
      }
      assert codec.decodeJpeg(corpus[chosen]) == Some(p.image.value);
    } else if index in cache {
      assert p.image.value == cache[index];
    }
  }

  // ---------------------------------------------------------------------------
  // Properties of the response cache

  /**
   * Handling a request never changes or removes a cached response: the cache
   * either stays the same, or a miss on the request's key adds exactly that
   * key, bound to the response returned.
   */
  lemma HandleFrame(codec: Codec, corpus: seq<Blob>, responses: map<string, Response>, images: map<nat, Image>,
                    width: u32, tail: string, index: nat, chosen: nat)
    requires |corpus| == SlothImageCount && index < SlothImageCount && chosen < SlothImageCount
    ensures var o := Handle(codec, corpus, responses, images, width, tail, index, chosen);
      (forall k :: k in responses ==> k in o.responses && o.responses[k] == responses[k]) &&
      (o.responses == responses ||
        (Validate(width, tail).Success? && o.result.Success? &&
         KeyOf(Validate(width, tail).value) !in responses &&
         o.responses == responses[KeyOf(Validate(width, tail).value) := o.result.value]))
  {
    var o := Handle(codec, corpus, responses, images, width, tail, index, chosen);
    var v := Validate(width, tail);
    if v.Success? && KeyOf(v.value) !in responses {
      var key := KeyOf(v.value);
      var picked := PickSloth(codec, corpus, images, index, chosen);
      if picked.image.Success? && Encoded(codec, picked.image.value, v.value).Some? {
        assert o.responses == responses[key := o.result.value];
      } else {
        assert o.responses == responses;
      }
    } else {
      assert o.responses == responses;
    }
  }

  /** An invalid request is answered with its status and leaves both caches alone. */
  lemma HandleInvalid(codec: Codec, corpus: seq<Blob>, responses: map<string, Response>, images: map<nat, Image>,
                      width: u32, tail: string, index: nat, chosen: nat)
    requires |corpus| == SlothImageCount && index < SlothImageCount && chosen < SlothImageCount
    requires Validate(width, tail).Failure?
    ensures Handle(codec, corpus, responses, images, width, tail, index, chosen) ==
            Outcome(Failure(Validate(width, tail).error), responses, images)
  {
  }

  /** A hit returns the stored response and leaves both caches alone, whatever the draws. */
  lemma HandleHit(codec: Codec, corpus: seq<Blob>, responses: map<string, Response>, images: map<nat, Image>,
                  width: u32, tail: string, index: nat, chosen: nat)
    requires |corpus| == SlothImageCount && index < SlothImageCount && chosen < SlothImageCount
    requires Validate(width, tail).Success? && KeyOf(Validate(width, tail).value) in responses
    ensures Handle(codec, corpus, responses, images, width, tail, index, chosen) ==
            Outcome(Success(responses[KeyOf(Validate(width, tail).value)]), responses, images)
  {
  }

  /** A successful answer is in the cache afterwards, under the request's key. */
  lemma SuccessIsCached(codec: Codec, corpus: seq<Blob>, responses: map<string, Response>, images: map<nat, Image>,
                        width: u32, tail: string, index: nat, chosen: nat)
    requires |corpus| == SlothImageCount && index < SlothImageCount && chosen < SlothImageCount
    ensures var o := Handle(codec, corpus, responses, images, width, tail, index, chosen);
      o.result.Success? ==>
        Validate(width, tail).Success? &&
        KeyOf(Validate(width, tail).value) in o.responses &&
        o.responses[KeyOf(Validate(width, tail).value)] == o.result.value
  {
    var o := Handle(codec, corpus, responses, images, width, tail, index, chosen);
    var v := Validate(width, tail);
    if v.Success? && KeyOf(v.value) !in responses {
      var picked := PickSloth(codec, corpus, images, index, chosen);
      if picked.image.Success? && Encoded(codec, picked.image.value, v.value).Some? {
        assert o.responses == responses[KeyOf(v.value) := o.result.value];
      }
    }
  }

  /**
   * Asking again returns the same response: once a request succeeded, the
   * same request is a hit, whatever the new draws, and changes nothing.
   */
  lemma RepeatedRequest(codec: Codec, corpus: seq<Blob>, responses: map<string, Response>, images: map<nat, Image>,
                        width: u32, tail: string, index: nat, chosen: nat, index2: nat, chosen2: nat)
    requires |corpus| == SlothImageCount && index < SlothImageCount && chosen < SlothImageCount
    requires index2 < SlothImageCount && chosen2 < SlothImageCount
    requires Handle(codec, corpus, responses, images, width, tail, index, chosen).result.Success?
    ensures var o := Handle(codec, corpus, responses, images, width, tail, index, chosen);
      Handle(codec, corpus, o.responses, o.images, width, tail, index2, chosen2) == o
  {
    var o := Handle(codec, corpus, responses, images, width, tail, index, chosen);
    SuccessIsCached(codec, corpus, responses, images, width, tail, index, chosen);
    HandleHit(codec, corpus, o.responses, o.images, width, tail, index2, chosen2);
  }

  /** Handling keeps every decoded image a decoding of the corpus. */
  lemma HandleKeepsImagesFromCorpus(codec: Codec, corpus: seq<Blob>, responses: map<string, Response>, images: map<nat, Image>,
                                    width: u32, tail: string, index: nat, chosen: nat)
    requires |corpus| == SlothImageCount && index < SlothImageCount && chosen < SlothImageCount
    requires ImagesFromCorpus(codec, corpus, images)
    ensures ImagesFromCorpus(codec, corpus, Handle(codec, corpus, responses, images, width, tail, index, chosen).images)
  {
    PickKeepsImagesFromCorpus(codec, corpus, images, index, chosen);
  }

  /**
   * With an image library that keeps its documented output sizes, every
   * successful answer, from the cache or freshly made, has the content type
   * of the requested extension and is an encoding of an image of exactly the
   * requested size in the requested format; and the cache stays valid.
   */
  lemma HandleServes(codec: Codec, corpus: seq<Blob>, responses: map<string, Response>, images: map<nat, Image>,
                     width: u32, tail: string, index: nat, chosen: nat)
    requires |corpus| == SlothImageCount && index < SlothImageCount && chosen < SlothImageCount
    requires WellBehaved(codec) && ResponsesValid(codec, responses)
    ensures var o := Handle(codec, corpus, responses, images, width, tail, index, chosen);
      ResponsesValid(codec, o.responses) &&
      (o.result.Success? ==> Validate(width, tail).Success? && Serves(codec, Validate(width, tail).value, o.result.value))
  {
    var o := Handle(codec, corpus, responses, images, width, tail, index, chosen);
    var v := Validate(width, tail);
    if v.Success? {
      var req := v.value;
      var key := KeyOf(req);
      assert Admissible(req);
      if key in responses {
        var cached :| Admissible(cached) && KeyOf(cached) == key && Serves(codec, cached, responses[key]);
        CacheKeyInjective(cached.width, cached.height, cached.extension, req.width, req.height, req.extension);
        assert cached == req;
      } else {
        var picked := PickSloth(codec, corpus, images, index, chosen);
        if picked.image.Success? && Encoded(codec, picked.image.value, req).Some? {
          var source := picked.image.value;
          var image := Cropped(codec, ResizeImage(codec, source, req.width, req.height), req.width, req.height);
          ExactDimensions(codec, source, req.width, req.height);
          assert codec.writeTo(image, req.format) == Some(o.result.value.body);
          assert Serves(codec, req, o.result.value);
          forall k | k in o.responses
            ensures exists r: Request :: Admissible(r) && KeyOf(r) == k && Serves(codec, r, o.responses[k])
          {
            if k == key {
              assert Admissible(req) && KeyOf(req) == k && Serves(codec, req, o.responses[k]);
            } else {
              assert o.responses[k] == responses[k];
            }
          }
        }
      }
    }
  }

  /** A successful answer carries the request's content type and is cached under its key. */
  lemma AnswerMatchesRequest(codec: Codec, corpus: seq<Blob>, responses: map<string, Response>, images: map<nat, Image>,
                             width: u32, tail: string, index: nat, chosen: nat, req: Request)
    requires |corpus| == SlothImageCount && index < SlothImageCount && chosen < SlothImageCount
    requires WellBehaved(codec) && ResponsesValid(codec, responses)
    requires Validate(width, tail) == Success(req)
    ensures var o := Handle(codec, corpus, responses, images, width, tail, index, chosen);
      o.result.Success? ==>
        o.result.value.contentType == req.contentType &&
        KeyOf(req) in o.responses && o.responses[KeyOf(req)] == o.result.value
  {
    HandleServes(codec, corpus, responses, images, width, tail, index, chosen);
    SuccessIsCached(codec, corpus, responses, images, width, tail, index, chosen);
  }

  /** The favicon is an "image/x-icon" response cached under "64x64.ico". */
  lemma FaviconOutcome(codec: Codec, corpus: seq<Blob>, responses: map<string, Response>, images: map<nat, Image>,
                       index: nat, chosen: nat)
    requires |corpus| == SlothImageCount && index < SlothImageCount && chosen < SlothImageCount
    requires WellBehaved(codec) && ResponsesValid(codec, responses)
    ensures var o := Handle(codec, corpus, responses, images, FaviconWidth, FaviconTail, index, chosen);
      o.result.Success? ==>
        o.result.value.contentType == Icon && MediaType(o.result.value.contentType) == "image/x-icon" &&
        FaviconKeyText in o.responses && o.responses[FaviconKeyText] == o.result.value
  {
    FaviconIconKey();
    var req := Validate(FaviconWidth, FaviconTail).value;
    AnswerMatchesRequest(codec, corpus, responses, images, FaviconWidth, FaviconTail, index, chosen, req);
  }

  // ---------------------------------------------------------------------------
  // The caches and the handlers

  /** `ImageCache`: decoded images by index into the corpus. */
  class ImageCache {
    var entries: map<nat, Image>

    constructor ()
      ensures entries == map[]
    {
      entries := map[];
    }
  }

  /** `ImageResponseCache`: encoded responses by "{W}x{H}.{ext}". */
  class ResponseCache {
    var entries: map<string, Response>

    constructor ()
      ensures entries == map[]
    {
      entries := map[];
    }
  }

  /** A fresh response cache is valid and a fresh image cache holds only corpus images. */
  lemma EmptyCachesValid(codec: Codec, corpus: seq<Blob>)
    ensures ResponsesValid(codec, map[]) && ImagesFromCorpus(codec, corpus, map[])
  {
  }

  /** `pick_random_sloth_image`, with the uniform index draw and the `choose` draw as parameters. */
  method PickRandomSlothImage(codec: Codec, corpus: seq<Blob>, cache: ImageCache, index: nat, chosen: nat)
    returns (image: Result<Image, Status>)
    requires |corpus| == SlothImageCount && index < SlothImageCount && chosen < SlothImageCount
    modifies cache
    ensures Picked(image, cache.entries) == PickSloth(codec, corpus, old(cache.entries), index, chosen)
    ensures image.Success? ==> index in cache.entries && cache.entries[index] == image.value
  {
    if index in cache.entries {
      image := Success(cache.entries[index]);
    } else {
      var decoded := codec.decodeJpeg(corpus[chosen]);
      if decoded.None? {
        return Failure(InternalServerError);
      }
      cache.entries := cache.entries[index := decoded.value];
      image := Success(decoded.value);
    }
  }

  /**
   * `placesloth`: validate, answer from the response cache, or pick, resize,
   * crop and encode an image and cache the response.
   */
  method Placesloth(codec: Codec, corpus: seq<Blob>, width: u32, tail: string,
                    responses: ResponseCache, images: ImageCache, index: nat, chosen: nat)
    returns (r: Result<Response, Status>)
    requires |corpus| == SlothImageCount && index < SlothImageCount && chosen < SlothImageCount
    modifies responses, images
    ensures Outcome(r, responses.entries, images.entries) ==
            Handle(codec, corpus, old(responses.entries), old(images.entries), width, tail, index, chosen)
    ensures WellBehaved(codec) && old(ResponsesValid(codec, responses.entries)) ==>
              ResponsesValid(codec, responses.entries) &&
              (r.Success? ==> Validate(width, tail).Success? && Serves(codec, Validate(width, tail).value, r.value))
  {
    if WellBehaved(codec) && ResponsesValid(codec, responses.entries) {
      HandleServes(codec, corpus, responses.entries, images.entries, width, tail, index, chosen);
    }
    var request := Validate(width, tail);
    if request.Failure? {
      return Failure(request.error);
    }
    var req := request.value;
    var cacheKey := CacheKey(width, req.height, req.extension);
    if cacheKey in responses.entries {
      r := Success(responses.entries[cacheKey]);
    } else {
      var image := PickRandomSlothImage(codec, corpus, images, index, chosen);
      if image.Failure? {
        return Failure(image.error);
      }
      var resized := ResizeImage(codec, image.value, width, req.height);
      var cropped := CropImage(codec, resized, width, req.height);
      var buffer := codec.writeTo(cropped, req.format);
      if buffer.None? {
        return Failure(InternalServerError);
      }
      var res := Response(req.contentType, buffer.value);
      responses.entries := responses.entries[cacheKey := res];
      r := Success(res);
    }
  }

  /** `favicon`: the handler with width 64 and tail "64.ico". */
  method Favicon(codec: Codec, corpus: seq<Blob>, responses: ResponseCache, images: ImageCache, index: nat, chosen: nat)
    returns (r: Result<Response, Status>)
    requires |corpus| == SlothImageCount && index < SlothImageCount && chosen < SlothImageCount
    modifies responses, images
    ensures Outcome(r, responses.entries, images.entries) ==
            Handle(codec, corpus, old(responses.entries), old(images.entries), FaviconWidth, FaviconTail, index, chosen)
    ensures WellBehaved(codec) && old(ResponsesValid(codec, responses.entries)) ==>
              ResponsesValid(codec, responses.entries) &&
              (r.Success? ==> r.value.contentType == Icon && FaviconKeyText in responses.entries &&
                              responses.entries[FaviconKeyText] == r.value)
  {
    if WellBehaved(codec) && ResponsesValid(codec, responses.entries) {
      FaviconOutcome(codec, corpus, responses.entries, images.entries, index, chosen);
    }
    r := Placesloth(codec, corpus, FaviconWidth, FaviconTail, responses, images, index, chosen);
  }

  // ---------------------------------------------------------------------------
  // Catchers

  const BadRequestHead: string := "400 Bad Request\n\n"
  const BadRequestTail: string := " is not a valid request path. Please make sure neither width nor height exceed 2000px and that if you specify an extension it's one of: jpg, png, ico, gif, bmp"

  /** The 400 catcher's body: a fixed heading, the request URI, then a fixed explanation. */
  function BadRequestBody(uri: string): (body: string)
    ensures |body| == |BadRequestHead| + |uri| + |BadRequestTail|
    ensures body[..|BadRequestHead|] == BadRequestHead
    ensures body[|BadRequestHead|..|BadRequestHead| + |uri|] == uri
    ensures body[|BadRequestHead| + |uri|..] == BadRequestTail
  {
    BadRequestHead + uri + BadRequestTail
  }

  /** The URI can be read back from a 400 body. */
  lemma BadRequestNamesUri(uri1: string, uri2: string)
    ensures BadRequestBody(uri1) == BadRequestBody(uri2) <==> uri1 == uri2
  {
    if BadRequestBody(uri1) == BadRequestBody(uri2) {
      assert |uri1| == |uri2|;
    }
  }

  const ServerErrorHead: string := "500 Internal Server Error\n\n"

  /** The 500 catcher's body: a fixed heading and a fixed sentence. */
  function InternalServerErrorBody(): (body: string)
    ensures |body| > |ServerErrorHead| && body[..|ServerErrorHead|] == ServerErrorHead
  {
    ServerErrorHead + "Working is effort, we don't like that here"
  }
}
