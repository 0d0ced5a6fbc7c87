/**
  The image data model of utils.py, its tunable constants, the decoding
  step, the colour normalisation and the aspect-ratio crop.

  An image is abstracted to its size and colour mode; pixel content is not
  modelled.  The JPEG encoder and the image decoder are foreign code and are
  given to the model as function parameters.
 */
module Imaging {
  import opened Basics

  // Processing constants (utils.py lines 11-18).  The scale factors 0.9 and
  // 1.2 are kept as exact fractions.
  const INITIAL_QUALITY: nat := 95
  const MIN_QUALITY: nat := 10
  const QUALITY_STEP: nat := 5
  const DOWNSCALE_NUM: nat := 9
  const DOWNSCALE_DEN: nat := 10
  const UPSCALE_NUM: nat := 6
  const UPSCALE_DEN: nat := 5
  const MAX_UPSCALE_ITERATIONS: nat := 30
  const MIN_DIMENSION: nat := 100
  const DEFAULT_TARGET_RATIO: real := 16.0 / 9.0

  /** The quality the size increaser re-encodes at before it upscales. */
  const MAX_QUALITY: nat := 100

  /** An image as the pipeline sees it: its size and its colour mode name. */
  datatype Image = Image(width: nat, height: nat, mode: string)

  /** What the decoder hands back: an image with a positive size. */
  type DecodedImage = img: Image | img.width > 0 && img.height > 0 witness Image(1, 1, "RGB")

  /** Opening and verifying the uploaded bytes; None when they are not an image. */
  type Decoder = seq<byte> -> Option<DecodedImage>

  /** Byte length of the JPEG encoding of an image at a quality. */
  type Encoder = (Image, nat) -> nat

  /** The contents of an output buffer: the JPEG of `image` at `quality`, `size` bytes long. */
  datatype Jpeg = Jpeg(image: Image, quality: nat, size: nat)

  datatype ProcessError = InvalidImage | ProcessingFailure

  /** Writes the encoding of `img` at quality `q` into a buffer. */
  function Encode(enc: Encoder, img: Image, q: nat): Jpeg
  {
    Jpeg(img, q, enc(img, q))
  }

  /** validate_image: decoding either yields an image or fails with InvalidImage. */
  function ValidateImage(decode: Decoder, file: seq<byte>): (r: Result<DecodedImage, ProcessError>)
    ensures r.Ok? <==> decode(file).Some?
    ensures r.Ok? ==> r.value == decode(file).value && r.value.width > 0 && r.value.height > 0
    ensures r.Err? ==> r.error == InvalidImage
  {
    match decode(file)
    case Some(img) => Ok(img)
    case None => Err(InvalidImage)
  }

  /** Colour modes that the JPEG encoder cannot take and that are converted first. */
  predicate NeedsRgb(mode: string)
  {
    mode == "RGBA" || mode == "P"
  }

  /** convert_to_rgb: alpha and palette images become RGB, all others pass through. */
  function ConvertToRgb(img: Image): (r: Image)
    ensures r.width == img.width && r.height == img.height
    ensures !NeedsRgb(r.mode)
    ensures NeedsRgb(img.mode) ==> r.mode == "RGB"
    ensures !NeedsRgb(img.mode) ==> r == img
  {
    if NeedsRgb(img.mode) then Image(img.width, img.height, "RGB") else img
  }

  /** Python's int() on a number: truncation toward zero. */
  function Trunc(x: real): (r: int)
    ensures 0.0 <= x ==> 0 <= r && r as real <= x < r as real + 1.0
    ensures x < 0.0 ==> r <= 0 && r as real - 1.0 < x <= r as real
  {
    if x >= 0.0 then x.Floor else -((-x).Floor)
  }

  /** An explicit crop rectangle: corner (x, y), width w and height h. */
  datatype CropBox = CropBox(x: int, y: int, w: int, h: int)

  /** A crop region as handed to the imaging library: (left, upper, right, lower). */
  datatype Region = Region(left: int, top: int, right: int, bottom: int)

  /**
    The region crop_to_ratio asks the library to cut: the explicit box as
    given, or the centred sub-rectangle at the target ratio.
   */
  function CropRegion(img: Image, box: Option<CropBox>, ratio: real): Region
    requires box.None? ==> img.width > 0 && img.height > 0
  {
    match box
    case Some(b) => Region(b.x, b.y, b.x + b.w, b.y + b.h)
    case None =>
      var w, h := img.width, img.height;
      if (w as real) / (h as real) > ratio then
        var newWidth := Trunc(h as real * ratio);
        var left := (w - newWidth) / 2;
        Region(left, 0, left + newWidth, h)
      else
        var newHeight := Trunc(w as real / ratio);
        var top := (h - newHeight) / 2;
        Region(0, top, w, top + newHeight)
  }

  /**
    Image.crop: the result is right - left by bottom - top in the same mode,
    whether or not the region lies inside the image; an inverted region is
    refused by the library.
   */
  function Crop(img: Image, region: Region): (r: Result<Image, ProcessError>)
    ensures r.Ok? <==> region.left <= region.right && region.top <= region.bottom
    ensures r.Ok? ==> r.value.width == region.right - region.left && r.value.height == region.bottom - region.top
    ensures r.Ok? ==> r.value.mode == img.mode
    ensures r.Err? ==> r.error == ProcessingFailure
  {
    if region.right < region.left || region.bottom < region.top then Err(ProcessingFailure)
    else Ok(Image(region.right - region.left, region.bottom - region.top, img.mode))
  }

  /** crop_to_ratio. */
  function CropToRatio(img: Image, box: Option<CropBox>, ratio: real): Result<Image, ProcessError>
    requires box.None? ==> img.width > 0 && img.height > 0
  {
    Crop(img, CropRegion(img, box, ratio))
  }

  /** An explicit box is cut as given: any image, any box of non-negative size, no clamping. */
  lemma ExplicitCropIsUnclamped(img: Image, b: CropBox, ratio: real)
    ensures CropToRatio(img, Some(b), ratio) ==
      if b.w >= 0 && b.h >= 0 then Ok(Image(b.w, b.h, img.mode)) else Err(ProcessingFailure)
  {
  }

  lemma MulStrict(a: real, b: real, c: real)
    requires c > 0.0 && a / c > b
    ensures a > b * c
  {
    assert a == (a / c) * c;
  }

  lemma MulWeak(a: real, b: real, c: real)
    requires c > 0.0 && a / c <= b
    ensures a <= b * c
  {
    assert a == (a / c) * c;
  }

  /**
    Too wide: the full height is kept, the new width is the largest whole
    width not above height * ratio, it is smaller than the source width, and
    the region is centred to within one pixel.
   */
  lemma AutoCropTooWide(img: Image, ratio: real)
    requires img.width > 0 && img.height > 0 && ratio > 0.0
    requires (img.width as real) / (img.height as real) > ratio
    ensures var r := CropRegion(img, None, ratio);
      var newWidth := r.right - r.left;
      r.top == 0 && r.bottom == img.height
      && 0 <= newWidth < img.width
      && newWidth as real <= img.height as real * ratio < newWidth as real + 1.0
      && 0 <= r.left && r.right <= img.width
      && 0 <= (img.width - r.right) - r.left <= 1
  {
    MulStrict(img.width as real, ratio, img.height as real);
    assert img.height as real * ratio >= 0.0;
  }

  /**
    Too tall or exactly on ratio: the full width is kept, the new height is
    the largest whole height not above width / ratio, at most the source
    height, and the region is centred to within one pixel.
   */
  lemma AutoCropTooTall(img: Image, ratio: real)
    requires img.width > 0 && img.height > 0
    requires (img.width as real) / (img.height as real) <= ratio
    ensures ratio > 0.0
    ensures var r := CropRegion(img, None, ratio);
      var newHeight := r.bottom - r.top;
      r.left == 0 && r.right == img.width
      && 0 <= newHeight <= img.height
      && newHeight as real <= img.width as real / ratio < newHeight as real + 1.0
      && 0 <= r.top && r.bottom <= img.height
      && 0 <= (img.height - r.bottom) - r.top <= 1
  {
    var w, h := img.width as real, img.height as real;
    assert w / h > 0.0;
    MulWeak(w, ratio, h);
    assert w / ratio <= h by {
      assert w == (w / ratio) * ratio;
    }
  }

  /**
    For a positive ratio the automatic crop always succeeds and the cropped
    image fits inside the source, with one side kept whole.
   */
  lemma AutoCropFits(img: Image, ratio: real)
    requires img.width > 0 && img.height > 0 && ratio > 0.0
    ensures var r := CropToRatio(img, None, ratio);
      r.Ok? && r.value.mode == img.mode
      && r.value.width <= img.width && r.value.height <= img.height
      && (r.value.width == img.width || r.value.height == img.height)
  {
    if (img.width as real) / (img.height as real) > ratio {
      AutoCropTooWide(img, ratio);
    } else {
      AutoCropTooTall(img, ratio);
    }
  }

  /** With a ratio of zero or below the image always counts as too wide and the region has no positive width. */
  lemma AutoCropNonPositiveRatio(img: Image, ratio: real)
    requires img.width > 0 && img.height > 0 && ratio <= 0.0
    ensures var r := CropRegion(img, None, ratio);
      r.right <= r.left && r.top == 0 && r.bottom == img.height
  {
    assert (img.width as real) / (img.height as real) > 0.0;
    assert img.height as real * ratio <= 0.0;
  }

  /** A 1000 x 1000 image at 16:9 keeps the full width and the 562 middle rows. */
  lemma SquareToWidescreenExample()
    ensures CropRegion(Image(1000, 1000, "RGB"), None, DEFAULT_TARGET_RATIO) == Region(0, 219, 1000, 781)
  {
    assert (1000 as real) / (DEFAULT_TARGET_RATIO) == 562.5;
  }

  /** A 1000 x 500 image at 1:1 keeps the 500 middle columns. */
  lemma LandscapeToSquareExample()
    ensures CropRegion(Image(1000, 500, "RGB"), None, 1.0) == Region(250, 0, 750, 500)
  {
  }

  /**
    The rounding is at most one pixel along the cropped side, but the ratio
    of the result need not be within 1 / min(width, height) of the target:
    1099 x 1000 at ratio 100 is cut to 1099 x 10, a ratio of 109.9.
   */
  lemma TallCropRatioErrorExample()
    ensures CropRegion(Image(1099, 1000, "RGB"), None, 100.0) == Region(0, 495, 1099, 505)
  {
    assert (1099 as real) / 100.0 == 10.99;
  }
}
