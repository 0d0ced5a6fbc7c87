# Image Sizer: a verified model of the crop-and-size pipeline

Image Sizer takes an uploaded image and sends back a JPEG. The JPEG is cropped
to a target aspect ratio and its byte size is pushed into a `[min, max]` range.
The crop is either an explicit rectangle or an automatic centred crop. The size
is reached by searching over the JPEG quality and the image dimensions.

This project models that pipeline in Dafny and proves properties of the model.
These are the parts of `utils.py` it covers:

- the constants
- decoding (`validate_image`)
- RGB normalisation (`convert_to_rgb`)
- the crop (`crop_to_ratio`)
- the max-size search (`compress_to_max_size`)
- the min-size search (`upscale_to_min_size`)
- the orchestration (`process_image`)

From `main.py` it also covers the decision logic of `upload_image`. That means
the upload ceiling, the size-envelope check and the crop-box assembly. It also
means the mapping of errors to HTTP statuses and the download name with its
RFC 5987 `filename*=UTF-8''…` header. The percent-encoding comes from
`urllib.parse.quote`, which uses RFC 3986 sections 2.1 and 2.3 over UTF-8
(RFC 3629).

Files and modules:

- `basics.dfy` (`Basics`): `Option`, `Result`, `byte`.
- `imaging.dfy` (`Imaging`): the constants of utils.py lines 11-18. An image
  is `(width, height, mode)`. It also holds the encoder and decoder
  parameters, the `Jpeg` buffer value, `ValidateImage`, `ConvertToRgb` and
  the crop.
- `size_reducer.dfy` (`SizeReducer`): the quality ladder and the downscale
  loop. The recursive functions `LadderQuality`, `DownscaleSearch` and
  `CompressSpec` define the search. The method `CompressToMaxSize` is the
  source's pair of `while` loops, proved to compute `CompressSpec`.
- `size_increaser.dfy` (`SizeIncreaser`): the early exit, the raise to
  quality 100 and the upscale loop capped at 30. `UpscaleLoop` and
  `UpscaleSpec` define the search. The method `UpscaleToMinSize` is the
  source's loop, proved to compute `UpscaleSpec`.
- `pipeline.dfy` (`Pipeline`): `MbToBytes`, which is `int(mb*1024*1024)`, and
  `ProcessImage`. `ProcessImage` is built on the specification functions of
  the two searches, because a function cannot call a method.
- `percent_encoding.dfy` (`PercentEncoding`): UTF-8 encoding and
  percent-encoding (`Quote`). Each comes with a decoder as its inverse.
- `upload.dfy` (`Upload`): `UploadImage` as a function from the form fields to
  a `Response`, which is `Reject(413|400|500)` or `Attachment(header, jpeg)`.

How foreign code is represented:

- **JPEG encoder.** It is a parameter `enc: (Image, nat) -> nat` that gives the
  byte length of the encoding at a quality. Nothing is assumed about it, not
  even that the size grows with the quality.
- **Decoder.** `Image.open` followed by `verify` is a parameter
  `decode: seq<byte> -> Option<DecodedImage>`. A decoded image has positive
  width and height.
- **Resize.** `resize` changes only the dimensions.
- **Crop.** `Image.crop` gives an image of size `right-left` by `bottom-top`
  in the same mode. It does this even when the region lies partly or wholly
  outside the image. It fails when `right < left` or `bottom < top`. This is
  the imaging library's behaviour. The model takes it as given, and the
  failure becomes a generic processing error, which is a 500.
- **Numbers.** `target_ratio` and the megabyte amounts are exact `real`s,
  meaning rationals. Python's `int()` is truncation toward zero (`Trunc`).
  The factors 0.9 and 1.2 are `(w*9)/10` and `(w*6)/5`.

Properties the code does not have, each shown by a lemma:

- **Aspect ratio.** The automatic crop of utils.py:85-94 is exact to within
  one pixel along the side it cuts (`AutoCropTooWide`, `AutoCropTooTall`).
  The resulting width/height ratio is therefore not always close to the
  target when the cut side becomes short: 1099×1000 at ratio 100
  is cut to 1099×10, which is a ratio of 109.9 (`TallCropRatioErrorExample`).
- **Output above the maximum.** The output of `upscale_to_min_size` can exceed
  `max_size_bytes`. The re-encode at quality 100 (utils.py:165-169) is never
  checked against it (`RaisedQualityMayExceedMaximum`). Only the committed upscale candidates are
  bounded by the maximum (`UpscaleSpecResult`, `OverMaximumIsNotUpscaled`).
- **Byte envelope.** main.py:87 compares `min_size_mb` and `target_size_mb`
  as megabyte values, while utils.py:227-228 truncates both to bytes. After truncation to bytes the two ends can be equal
  (`MbToBytesCanMeet`). A request accepted at main.py:87 therefore has
  `min_bytes <= max_bytes`, and not always `min_bytes < max_bytes`
  (`EnvelopeOrdered`).

## Model

| member | source | states |
|---|---|---|
| `Imaging.ValidateImage` | utils.py:31-51 | decoding succeeds exactly when the decoder yields an image, which then has positive size; otherwise the error is InvalidImage |
| `Imaging.ConvertToRgb` | utils.py:54-58 | size kept; RGBA and P become RGB, every other mode passes unchanged; the result is never RGBA or P |
| `Imaging.Trunc` | utils.py:87-92 | Python `int()`: for x ≥ 0 the greatest integer ≤ x, for x < 0 the least integer ≥ x |
| `Imaging.CropRegion` | utils.py:77-94 | the region to cut: the supplied box as (x, y, x+w, y+h), or the centred automatic region; its properties are `ExplicitCropIsUnclamped`, `AutoCropTooWide`, `AutoCropTooTall`, `AutoCropNonPositiveRatio` |
| `Imaging.CropToRatio` | utils.py:61-94 | crop_to_ratio: the region cut by `Crop`; it succeeds at any positive ratio with no box and keeps one full side (`AutoCropFits`) |
| `Imaging.Crop` | utils.py:79-94 | the crop succeeds iff the region is not inverted; the result is right−left by bottom−top in the same mode, with no clamping to the image |
| `Imaging.ExplicitCropIsUnclamped` | utils.py:77-79 | a supplied box (x, y, w, h) is cut as (x, y, x+w, y+h) on any image, out of bounds or not; an inverted box fails |
| `Imaging.AutoCropTooWide` | utils.py:85-89 | when width/height > ratio > 0: height kept; new width is floor(height·ratio) and is below the width; left offset centres the region to within one pixel and the region lies inside the image |
| `Imaging.AutoCropTooTall` | utils.py:90-94 | when width/height ≤ ratio, including equality: the ratio is positive; width kept; new height is floor(width/ratio), at most the height; top offset centres it to within one pixel, inside the image |
| `Imaging.AutoCropFits` | utils.py:81-94 | for a positive ratio the automatic crop succeeds; the result fits inside the source, keeps one full side and the mode |
| `Imaging.AutoCropNonPositiveRatio` | utils.py:83-89 | a ratio ≤ 0 always takes the too-wide branch and yields a region of no positive width |
| `Imaging.SquareToWidescreenExample` | utils.py:90-94 | 1000×1000 at 16:9 is cut to rows 219 to 781, full width |
| `Imaging.LandscapeToSquareExample` | utils.py:85-89 | 1000×500 at 1:1 is cut to columns 250 to 750, full height |
| `Imaging.TallCropRatioErrorExample` | utils.py:90-94 | 1099×1000 at ratio 100 is cut to 1099×10, so the result's ratio can be far from the target |
| `SizeReducer.Downscaled` | utils.py:127-128 | one downscale step keeps the mode; each new side is floor(0.9·side), pinned as 10·new ≤ 9·side < 10·new + 10; every positive side strictly shrinks |
| `SizeReducer.LadderQuality` | utils.py:111-122 | the quality the first loop ends at; characterised by `LadderQualityExit` |
| `SizeReducer.DownscaleSearch` | utils.py:124-136 | the image the downscale loop ends at; characterised by `DownscaleSearchExit` and `DownscaleStopsAtFirstFit` |
| `SizeReducer.CompressSpec` | utils.py:97-138 | the result of compress_to_max_size as a function; characterised by `CompressSpecResult` and `FirstEncodingFits`, computed by `CompressToMaxSize` |
| `SizeReducer.LadderQualityExit` | utils.py:111-122 | the quality loop stays on {95, 90, …, 10}; it stops at the first rung whose encoding fits, or at 10; every rung it passed was over the target |
| `SizeReducer.DownscaleSearchExit` | utils.py:125-136 | the result is the k-th 0.9 shrink of the input, where every earlier shrink was still over the target with the next one above the floor; never committed below 100 px; an input already under 100 px is unchanged; the loop ends when the size fits or the next shrink would cross the floor |
| `SizeReducer.CompressSpecResult` | utils.py:97-138 | the buffer is the encoding of the returned image at a ladder quality; it fits the target unless quality 10 and the 100 px floor were both reached; resizing happens only at quality 10; the image is the first shrink at which the loop may stop |
| `SizeReducer.DownscaleStopsAtFirstFit` | utils.py:125-136 | if some shrink reachable above the floor fits at the quality, the downscale result fits and is no later than that shrink |
| `SizeReducer.FirstEncodingFits` | utils.py:114-125 | if the first encode at 95 fits, quality 95 and the unchanged image are returned |
| `SizeReducer.CompressToMaxSize` | utils.py:97-138 | the two while loops of the source compute exactly the buffer, quality and image of the search specification |
| `SizeIncreaser.Upscaled` | utils.py:177-178 | one upscale step keeps the mode; each new side is floor(1.2·side), pinned as 5·new ≤ 6·side < 5·new + 5; no side shrinks |
| `SizeIncreaser.RaisedQuality` | utils.py:164-166 | a quality below 100 is raised to 100, one at or above stays |
| `SizeIncreaser.UpscaleLoop` | utils.py:171-189 | the upscale loop from a given iteration; characterised by `UpscaleLoopExit` |
| `SizeIncreaser.UpscaleSpec` | utils.py:161-189 | upscale_to_min_size as a function; characterised by `UpscaleEarlyExit`, `UpscaleSpecResult` and `RaisedQualityMayExceedMaximum`, computed by `UpscaleToMinSize` |
| `SizeIncreaser.UpscaleLoopExit` | utils.py:171-189 | at most 30 commits; the image is the committed number of 1.2 upscales; every committed candidate was within the maximum; with no commit the buffer is unchanged; stops only at the minimum, the cap, the maximum, or a next candidate over the maximum; and stops as soon as it can: every buffer before the last, the given one included, was under both the minimum and the maximum |
| `SizeIncreaser.UpscaleEarlyExit` | utils.py:161-162 | with min ≤ 0 or a buffer already at the minimum, the buffer is returned unchanged |
| `SizeIncreaser.UpscaleSpecResult` | utils.py:141-191 | after the raise to quality 100: at most 30 upscales; each commit within the maximum; the result is the raised re-encode or the last commit; the loop's exit condition; every buffer held before the last, the raised re-encode included, was under both the minimum and the maximum |
| `SizeIncreaser.RaisedQualityMayExceedMaximum` | utils.py:164-169 | the quality-100 re-encode is kept even when it is over the maximum |
| `SizeIncreaser.UpscaleToMinSize` | utils.py:141-191 | the loop of the source, with its two breaks and the iteration cap, computes exactly the buffer of the search specification |
| `Pipeline.MbToBytes` | utils.py:227-228 | `int(mb*1024*1024)`: truncation of mb·2^20 toward zero |
| `Pipeline.MbToBytesMonotone` | utils.py:227-228 | the byte conversion preserves the order of amounts |
| `Pipeline.MbToBytesCanMeet` | utils.py:227-228 | two different megabyte amounts can give the same byte count |
| `Pipeline.Prepared` | utils.py:217-224 | validate, convert to RGB, crop; its outcomes are stated by `InvalidImageIffUndecodable` and `ProcessFailsOnlyOnInvertedCrop` |
| `Pipeline.ProcessImage` | utils.py:194-236 | process_image; its error and output properties are `InvalidImageIffUndecodable`, `ProcessFailsOnlyOnInvertedCrop`, `ProcessOutputIsEncoding`, `NoMinimumIsCompression`, `OverMaximumIsNotUpscaled` |
| `Pipeline.InvalidImageIffUndecodable` | utils.py:217-218 | process_image fails with InvalidImage exactly when the upload does not decode |
| `Pipeline.ProcessFailsOnlyOnInvertedCrop` | utils.py:217-224 | a decodable upload is processed iff its crop succeeds; an automatic crop at a positive ratio always does |
| `Pipeline.ProcessOutputIsEncoding` | utils.py:194-236 | the output is the encoding of its image at its quality, in a mode other than RGBA or P, at a ladder quality or 100 |
| `Pipeline.NoMinimumIsCompression` | utils.py:226-233 | with a minimum under one byte the output is the compressed buffer, which fits the maximum unless quality 10 and the floor were reached |
| `Pipeline.OverMaximumIsNotUpscaled` | utils.py:226-233 | the same maximum bounds both searches: an output over it is the compressed buffer or its quality-100 re-encode, never an upscale |
| `PercentEncoding.EncodeScalar` | main.py:116 | a character is encoded in 1, 2, 3 or 4 UTF-8 bytes as it lies below U+0080, U+0800, U+10000 or above (no overlong form); every byte after the first is a 10xxxxxx continuation byte |
| `PercentEncoding.Utf8` | main.py:116 | the UTF-8 bytes of a string; undone by `DecodeUtf8` (`Utf8RoundTrip`) |
| `PercentEncoding.EncodeScalarDecodes` | main.py:116 | the lead byte of an encoded character announces its length and the bytes decode back to it |
| `PercentEncoding.Utf8RoundTrip` | main.py:116 | decoding the UTF-8 of a string gives back its code points |
| `PercentEncoding.EncodeByte` | main.py:116 | a safe byte (unreserved or '/') stands for itself; any other becomes a three-character escape starting with '%' |
| `PercentEncoding.PercentEncode` | main.py:116 | the escape of every byte, in order; undone by `PercentDecode` (`PercentRoundTrip`), alphabet in `PercentEncodeAlphabet` |
| `PercentEncoding.Quote` | main.py:116 | urllib.parse.quote with safe='/'; its properties are `QuoteRoundTrip`, `QuoteAppend`, `QuoteKeepsSafeText`, `QuoteThreeByteScalar` |
| `PercentEncoding.PercentRoundTrip` | main.py:116 | percent-decoding undoes percent-encoding |
| `PercentEncoding.QuoteRoundTrip` | main.py:116 | quote is undone by percent-decoding followed by UTF-8 decoding |
| `PercentEncoding.PercentEncodeAlphabet` | main.py:116 | quote's output holds only unreserved characters, '/' and '%' |
| `PercentEncoding.QuoteAppend` | main.py:116 | quote distributes over concatenation |
| `PercentEncoding.QuoteKeepsSafeText` | main.py:116 | a string of unreserved characters and '/' is left as it is |
| `PercentEncoding.QuoteThreeByteScalar` | main.py:116 | a character from U+0800 to U+FFFF becomes the escapes of its three UTF-8 bytes |
| `Upload.UploadImage` | main.py:48-124 | upload_image as a function from the form to the response; its outcomes are `OversizeRejectedFirst`, `EnvelopeRejected`, `ProcessingOutcome`, `PartialBoxSameResponse`, `PartialBoxMeansAutoCrop` |
| `Upload.MaxUploadBytesValue` | main.py:39 | the upload ceiling is int(10.0·1024·1024) = 10485760 bytes |
| `Upload.OversizeRejectedFirst` | main.py:76-81 | the response is 413 exactly when the upload is over the ceiling, whatever the other fields hold |
| `Upload.EnvelopeRejected` | main.py:86-91 | within the ceiling, min_size_mb ≥ target_size_mb is a 400, including when both are 0 |
| `Upload.EnvelopeOrdered` | main.py:86-91 | after the checks the byte envelope satisfies min ≤ max |
| `Upload.BuildCropBox` | main.py:93-96 | a crop box exists exactly when all four of x, y, width and height are present, and holds them |
| `Upload.PartialBoxSameResponse` | main.py:76-111 | for any form missing a crop field, on every path (413, 400, 500 or attachment), the response equals that of the same form with no crop fields |
| `Upload.PartialBoxMeansAutoCrop` | main.py:93-96 | past the checks, with any crop field missing, the response is an attachment exactly when processing with no crop box succeeds, and its body is that processed JPEG |
| `Upload.ProcessingOutcome` | main.py:98-122 | past the checks: undecodable is 400, any other processing failure 500, success sends the processed JPEG with the computed header |
| `Upload.LastIndexBelow` | main.py:114 | the position of the last occurrence of a character, or −1 exactly when it is absent |
| `Upload.Stem` | main.py:114 | without a '.' the stem is the whole name; otherwise it is the prefix before a '.' after which no '.' follows |
| `Upload.StemDropsLastExtension` | main.py:114 | base + "." + ext, with no '.' in ext, has the stem base, whatever dots base holds |
| `Upload.StemExample` | main.py:114 | "a.b.png" has the stem "a.b"; "photo" is kept |
| `Upload.DownloadName` | main.py:114-115 | "processed_" + the stem + ".jpg"; quoted by `QuoteDownloadName` |
| `Upload.ContentDisposition` | main.py:116-122 | the RFC 5987 header value; stated by `ContentDispositionDecodes` and `UnicodeFilenameExample` |
| `Upload.QuoteDownloadName` | main.py:115-116 | the quoted download name is "processed_" + the quoted stem + ".jpg" |
| `Upload.ContentDispositionDecodes` | main.py:113-122 | the header is the RFC 5987 prefix and a percent-encoded name of safe characters and '%', which decodes to the UTF-8 of "processed_" + stem + ".jpg" |
| `Upload.UnicodeFilenameExample` | main.py:113-122 | the four-character Chinese name with ".jpg" gives `filename*=UTF-8''processed_%E6%B8%AC%E8%A9%A6%E5%9C%96%E7%89%87.jpg` |

## Left out

- Pixel content, resampling and the real JPEG encoder are foreign code. The encoder is a parameter that depends only on size, mode and quality. So two images of equal size and mode encode to the same length within one run.
- Imaging.CropRegion: Python compares `width / height > target_ratio` in floating point and computes `int(height * target_ratio)` and `int(width / target_ratio)` on doubles. The model uses exact rationals, so at an exact tie or very near one the branch or the floor can differ by one.
- SizeReducer.Downscaled: `int(w * 0.9)` on doubles is modelled as `(w*9)/10`. A rare rounding difference of one pixel is not modelled.
- SizeIncreaser.Upscaled: `int(w * 1.2)` on doubles is modelled as `(w*6)/5`. A rare rounding difference of one pixel is not modelled.
- Pipeline.MbToBytes: floating-point rounding of `mb * 1024 * 1024` is not modelled. Rationals are used instead.
- Pipeline.MbToBytes and Imaging.CropRegion: non-finite inputs are not represented. The form's float fields accept `nan` and `±inf`, and a product such as `1e303 * 1024 * 1024` overflows a double to `inf`. `int()` then raises at utils.py:227-228 (the byte amounts) or at utils.py:87 and 92 (the crop size, for a `target_ratio` of `nan` or an infinity). main.py:110-111 turns that into a 500. The model's exact rationals always give a number, so such a request is answered as if the values were finite.
- Explicit crop coordinates arrive as floats and the imaging library rounds them. The model takes integer coordinates.
- Pipeline.ProcessFailsOnlyOnInvertedCrop: upload_image's 500 for an upload that passes `Image.open` and `verify` but fails later is not modelled. Both calls are lazy, and for a JPEG `verify` reads no pixel data. For an RGBA or P image the pixels are first decoded by `convert` (utils.py:57); for any other image, by `load()` inside `Image.crop` (utils.py:79, 89, 94). A truncated body, or the library's pixel-count limit on a huge crop box, raises there and main.py:110-111 turns it into a 500. The same holds for an image whose mode JPEG cannot write and that `convert_to_rgb` leaves unchanged (LA, PA, I, I;16 and others), which decodes but raises at `image.save` (utils.py:115), and for a zero-area image after a degenerate crop. The model's decoder either rejects such an upload, which gives a 400, or accepts it, which gives a 200.
- The BytesIO buffer that is rewritten in place (`seek(0)`, `truncate()`, `save`) is modelled as a `Jpeg` value that is reassigned. The final `output.seek(0)` has no counterpart.
- The FastAPI app, CORS, templates, static files, `StreamingResponse`, the media type, the `detail` messages of the errors and the `asyncio.to_thread` offloading are HTTP and concurrency plumbing.
- Form parsing and its defaults from settings (2.0 MB, 0.0 MB, 16/9) are not modelled. The upload form is given with every field already decided, crop fields as options.
- config.py holds environment-loaded settings. Its values are used directly as constants.
- static/js/main.js is browser UI code.
- The tests drive an HTTP client. They serve only as evidence of expected behaviour.
- `quote` on a string with lone surrogates raises an error. Dafny characters are Unicode scalar values, so such strings cannot occur in the model.
