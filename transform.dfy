/**
 * The "fill, then centre-crop" transform of src/main.rs (`resize_image`,
 * `crop_image`). Decoding, resampling, cropping and encoding belong to the
 * `image` crate; the model receives them as the functions of a `Codec`.
 */
module Transform {
  import opened Wrappers
  import opened Decimal

  type Blob = seq<bv8>

  /** A decoded image (`DynamicImage`); its pixels are left uninterpreted. */
  datatype Image = Image(width: u32, height: u32, pixels: seq<bv8>)

  /** The output formats the handler uses (`image::ImageFormat`). */
  datatype ImageFormat = Png | Gif | Ico | Bmp | Jpeg

  /** The `image` crate entry points the service calls, as opaque functions. */
  datatype Codec = Codec(
    decodeJpeg: Blob -> Option<Image>,                   // load_from_memory_with_format(.., Jpeg)
    resizeToFill: (Image, u32, u32) -> Image,            // resize_to_fill(nwidth, nheight, Triangle)
    cropImm: (Image, u32, u32, u32, u32) -> Image,       // crop_imm(x, y, width, height)
    writeTo: (Image, ImageFormat) -> Option<seq<bv8>>)   // write_to(.., format); None is an encode error

  function Min(a: nat, b: nat): nat {
    if a <= b then a else b
  }

  /**
   * The output dimensions the `image` crate documents: `resize_to_fill`
   * returns exactly the requested size, and `crop_imm` clamps its rectangle
   * to the image (x := min(x, width), then width := min(width, image width - x),
   * and the same for y and height).
   */
  ghost predicate WellBehaved(codec: Codec) {
    (forall img: Image, nw: u32, nh: u32 :: codec.resizeToFill(img, nw, nh).width == nw && codec.resizeToFill(img, nw, nh).height == nh) &&
    (forall img: Image, x: u32, y: u32, w: u32, h: u32 ::
      codec.cropImm(img, x, y, w, h).width == Min(w, img.width - Min(x, img.width)) &&
      codec.cropImm(img, x, y, w, h).height == Min(h, img.height - Min(y, img.height)))
  }

  /** The side of the square `resize_image` asks for: the larger request, the width on a tie. */
  function LargerRequestSize(width: u32, height: u32): (side: u32)
    ensures side >= width && side >= height
    ensures side == width || side == height
    ensures height <= width ==> side == width
  {
    if height > width then height else width
  }

  /** `resize_image`: fill a square whose side is the larger requested dimension. */
  function ResizeImage(codec: Codec, image: Image, width: u32, height: u32): (r: Image)
    ensures WellBehaved(codec) ==> r.width == r.height == LargerRequestSize(width, height)
  {
    var side := LargerRequestSize(width, height);
    codec.resizeToFill(image, side, side)
  }

  /**
   * The centred crop origin on one axis: the left margin is at most the right
   * margin and the right at most one more (the odd pixel goes right); zero
   * when the image is not larger than the request.
   */
  function CropStart(original: u32, requested: u32): (start: u32)
    ensures requested < original ==> start + requested <= original
    ensures requested < original ==> start <= original - requested - start <= start + 1
    ensures requested >= original ==> start == 0
  {
    if requested < original then (original - requested) / 2 else 0
  }

  /** The image `crop_image` returns, as a function of its input. */
  function Cropped(codec: Codec, image: Image, width: u32, height: u32): (r: Image)
    ensures WellBehaved(codec) ==> r.width <= width && r.width <= image.width
    ensures WellBehaved(codec) ==> r.height <= height && r.height <= image.height
    ensures WellBehaved(codec) && width <= image.width && height <= image.height ==>
              r.width == width && r.height == height
  {
    assert Min(CropStart(image.width, width), image.width) == CropStart(image.width, width);
    assert Min(CropStart(image.height, height), image.height) == CropStart(image.height, height);
    codec.cropImm(image, CropStart(image.width, width), CropStart(image.height, height), width, height)
  }

  /**
   * `crop_image`: a cut-out of the requested size centred on the image. The
   * origin starts at (0, 0) and moves only on an axis where the image is larger.
   */
  method CropImage(codec: Codec, image: Image, width: u32, height: u32) returns (r: Image)
    ensures r == Cropped(codec, image, width, height)
    ensures WellBehaved(codec) && width <= image.width && height <= image.height ==>
              r.width == width && r.height == height
  {
    var cropStartX: u32 := 0;
    var cropStartY: u32 := 0;
    var originalWidth := image.width;
    var originalHeight := image.height;
    if width < originalWidth {
      cropStartX := (originalWidth - width) / 2;
    }
    if height < originalHeight {
      cropStartY := (originalHeight - height) / 2;
    }
    r := codec.cropImm(image, cropStartX, cropStartY, width, height);
  }

  /**
   * Resizing to the larger side and then centre-cropping always yields an
   * image of exactly the requested width and height.
   */
  lemma ExactDimensions(codec: Codec, image: Image, width: u32, height: u32)
    requires WellBehaved(codec)
    ensures Cropped(codec, ResizeImage(codec, image, width, height), width, height).width == width
    ensures Cropped(codec, ResizeImage(codec, image, width, height), width, height).height == height
  {
    var resized := ResizeImage(codec, image, width, height);
    assert width <= resized.width && height <= resized.height;
  }
}
