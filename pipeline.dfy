/**
  process_image: decode, normalise to RGB, crop, compress to the maximum,
  then grow towards the minimum, both sizes given in megabytes.
 */
module Pipeline {
  import opened Basics
  import opened Imaging
  import opened SizeReducer
  import opened SizeIncreaser

  /** int(mb * 1024 * 1024). */
  function MbToBytes(mb: real): (r: int)
    ensures 0.0 <= mb ==> 0 <= r && r as real <= mb * 1048576.0 < r as real + 1.0
    ensures mb < 0.0 ==> r <= 0 && r as real - 1.0 < mb * 1048576.0 <= r as real
  {
    Trunc(mb * 1024.0 * 1024.0)
  }

  /** Byte conversion keeps the order of the amounts (not strictly: nearby amounts can meet). */
  lemma MbToBytesMonotone(a: real, b: real)
    requires a <= b
    ensures MbToBytes(a) <= MbToBytes(b)
  {
    var x, y := a * 1048576.0, b * 1048576.0;
    assert x <= y;
    if 0.0 <= x {
      assert x.Floor <= y.Floor;
    } else if y < 0.0 {
      assert (-y).Floor <= (-x).Floor;
    }
  }

  /** Two distinct megabyte amounts that convert to the same byte count. */
  lemma MbToBytesCanMeet()
    ensures 1.0 < 1.0 + 1.0 / 2097152.0 && MbToBytes(1.0) == MbToBytes(1.0 + 1.0 / 2097152.0) == 1048576
  {
  }

  /** Steps 1 to 3 of process_image: decode, normalise to RGB, crop. */
  function Prepared(decode: Decoder, file: seq<byte>, cropBox: Option<CropBox>, targetRatio: real): Result<Image, ProcessError>
  {
    match ValidateImage(decode, file)
    case Err(e) => Err(e)
    case Ok(decoded) => CropToRatio(ConvertToRgb(decoded), cropBox, targetRatio)
  }

  /** process_image: steps 1 to 3, then compression to the maximum and growth towards the minimum. */
  function ProcessImage(decode: Decoder, enc: Encoder, file: seq<byte>, targetSizeMb: real,
                        cropBox: Option<CropBox>, targetRatio: real, minSizeMb: real): Result<Jpeg, ProcessError>
  {
    match Prepared(decode, file, cropBox, targetRatio)
    case Err(e) => Err(e)
    case Ok(cropped) =>
      var targetSizeBytes := MbToBytes(targetSizeMb);
      var minSizeBytes := MbToBytes(minSizeMb);
      var compressed := CompressSpec(enc, cropped, targetSizeBytes);
      Ok(UpscaleSpec(enc, compressed.image, compressed, compressed.quality, minSizeBytes, targetSizeBytes).output)
  }

  /** The pipeline fails with InvalidImage exactly when the upload does not decode. */
  lemma InvalidImageIffUndecodable(decode: Decoder, enc: Encoder, file: seq<byte>, targetSizeMb: real,
                                   cropBox: Option<CropBox>, targetRatio: real, minSizeMb: real)
    ensures ProcessImage(decode, enc, file, targetSizeMb, cropBox, targetRatio, minSizeMb) == Err(InvalidImage)
        <==> decode(file).None?
  {
  }

  /** A decodable upload fails only when the crop region is inverted; an automatic crop at a positive ratio always succeeds. */
  lemma ProcessFailsOnlyOnInvertedCrop(decode: Decoder, enc: Encoder, file: seq<byte>, targetSizeMb: real,
                                       cropBox: Option<CropBox>, targetRatio: real, minSizeMb: real)
    requires decode(file).Some?
    ensures ProcessImage(decode, enc, file, targetSizeMb, cropBox, targetRatio, minSizeMb).Ok?
        <==> Prepared(decode, file, cropBox, targetRatio).Ok?
    ensures cropBox.None? && targetRatio > 0.0 ==> ProcessImage(decode, enc, file, targetSizeMb, cropBox, targetRatio, minSizeMb).Ok?
  {
    if cropBox.None? && targetRatio > 0.0 {
      AutoCropFits(ConvertToRgb(decode(file).value), targetRatio);
    }
  }

  /**
    Whatever comes out is the JPEG of the returned image at the returned
    quality, in a mode the encoder takes, at a ladder quality or 100, and
    from an image whose sides were only ever scaled from the cropped one.
   */
  lemma ProcessOutputIsEncoding(decode: Decoder, enc: Encoder, file: seq<byte>, targetSizeMb: real,
                                cropBox: Option<CropBox>, targetRatio: real, minSizeMb: real)
    requires ProcessImage(decode, enc, file, targetSizeMb, cropBox, targetRatio, minSizeMb).Ok?
    ensures var out := ProcessImage(decode, enc, file, targetSizeMb, cropBox, targetRatio, minSizeMb).value;
      var cropped := Prepared(decode, file, cropBox, targetRatio).value;
      out.size == enc(out.image, out.quality)
      && !NeedsRgb(out.image.mode) && out.image.mode == cropped.mode
      && (OnLadder(out.quality) || out.quality == MAX_QUALITY)
  {
    var cropped := Prepared(decode, file, cropBox, targetRatio).value;
    var maxB, minB := MbToBytes(targetSizeMb), MbToBytes(minSizeMb);
    var c := CompressSpec(enc, cropped, maxB);
    CompressSpecResult(enc, cropped, maxB);
    var k: nat :| c.image == DownscaledTimes(cropped, k);
    DownscaledTimesMode(cropped, k);
    if !(minB <= 0 || c.size >= minB) {
      UpscaleSpecResult(enc, c.image, c, c.quality, minB, maxB);
      var r := UpscaleSpec(enc, c.image, c, c.quality, minB, maxB);
      UpscaledTimesMode(c.image, r.iterations);
    }
  }

  lemma {:induction false} DownscaledTimesMode(img: Image, k: nat)
    ensures DownscaledTimes(img, k).mode == img.mode
    decreases k
  {
    if k > 0 {
      DownscaledTimesMode(Downscaled(img), k - 1);
    }
  }

  lemma {:induction false} UpscaledTimesMode(img: Image, k: nat)
    ensures UpscaledTimes(img, k).mode == img.mode
    decreases k
  {
    if k > 0 {
      UpscaledTimesMode(Upscaled(img), k - 1);
    }
  }

  /**
    Without a minimum (below one byte) the result is the compressed buffer,
    which fits the maximum unless quality 10 was reached at the size floor.
   */
  lemma NoMinimumIsCompression(decode: Decoder, enc: Encoder, file: seq<byte>, targetSizeMb: real,
                               cropBox: Option<CropBox>, targetRatio: real, minSizeMb: real)
    requires Prepared(decode, file, cropBox, targetRatio).Ok?
    requires MbToBytes(minSizeMb) <= 0
    ensures var out := ProcessImage(decode, enc, file, targetSizeMb, cropBox, targetRatio, minSizeMb);
      var maxB := MbToBytes(targetSizeMb);
      out == Ok(CompressSpec(enc, Prepared(decode, file, cropBox, targetRatio).value, maxB))
      && (out.value.size <= maxB || (out.value.quality == MIN_QUALITY && BelowFloor(Downscaled(out.value.image))))
  {
    CompressSpecResult(enc, Prepared(decode, file, cropBox, targetRatio).value, MbToBytes(targetSizeMb));
  }

  /**
    The same maximum bounds both searches: an output over the maximum was
    never produced by an upscale, so it is either the best-effort compressed
    buffer or the quality-100 re-encode.
   */
  lemma OverMaximumIsNotUpscaled(decode: Decoder, enc: Encoder, file: seq<byte>, targetSizeMb: real,
                                 cropBox: Option<CropBox>, targetRatio: real, minSizeMb: real)
    requires Prepared(decode, file, cropBox, targetRatio).Ok?
    ensures var out := ProcessImage(decode, enc, file, targetSizeMb, cropBox, targetRatio, minSizeMb).value;
      var cropped := Prepared(decode, file, cropBox, targetRatio).value;
      var maxB := MbToBytes(targetSizeMb);
      var c := CompressSpec(enc, cropped, maxB);
      out.size > maxB ==> out == c || out == Encode(enc, c.image, MAX_QUALITY)
  {
    var cropped := Prepared(decode, file, cropBox, targetRatio).value;
    var maxB, minB := MbToBytes(targetSizeMb), MbToBytes(minSizeMb);
    var c := CompressSpec(enc, cropped, maxB);
    if !(minB <= 0 || c.size >= minB) {
      UpscaleSpecResult(enc, c.image, c, c.quality, minB, maxB);
    }
  }
}
