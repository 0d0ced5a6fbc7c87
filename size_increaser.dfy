/**
  upscale_to_min_size: when the output is under the minimum, re-encode at
  quality 100, then enlarge the image by 1.2 per step, at most 30 times,
  committing a candidate only when it stays within the maximum.

  UpscaleSpec defines the search as recursive functions; UpscaleToMinSize is
  the loop of the source, proved to compute it.
 */
module SizeIncreaser {
  import opened Imaging

  /** One upscale step: both sides times 1.2, rounded down. */
  function Upscaled(img: Image): (r: Image)
    ensures r.mode == img.mode && r.width >= img.width && r.height >= img.height
    ensures r.width * 5 <= img.width * 6 < r.width * 5 + 5
    ensures r.height * 5 <= img.height * 6 < r.height * 5 + 5
  {
    Image(img.width * UPSCALE_NUM / UPSCALE_DEN, img.height * UPSCALE_NUM / UPSCALE_DEN, img.mode)
  }

  /** `k` upscale steps. */
  function UpscaledTimes(img: Image, k: nat): Image
    decreases k
  {
    if k == 0 then img else UpscaledTimes(Upscaled(img), k - 1)
  }

  /** The quality the search settles on: raised to 100 when below it. */
  function RaisedQuality(quality: nat): (q: nat)
    ensures q >= quality && q >= MAX_QUALITY
    ensures quality < MAX_QUALITY ==> q == MAX_QUALITY
    ensures quality >= MAX_QUALITY ==> q == quality
  {
    if quality < MAX_QUALITY then MAX_QUALITY else quality
  }

  /** The outcome of the search: the buffer kept, the image it encodes and the upscales committed. */
  datatype UpscaleRun = UpscaleRun(output: Jpeg, image: Image, iterations: nat)

  /** The `k`-th upscale of `img`, encoded at `q`, is within the maximum. */
  predicate CommitFits(enc: Encoder, img: Image, k: nat, q: nat, maxSize: int)
  {
    enc(UpscaledTimes(img, k), q) <= maxSize
  }

  /** The `k`-th upscale of `img`, encoded at `q`, is under both the minimum and the maximum. */
  predicate Undersized(enc: Encoder, img: Image, k: nat, q: nat, minSize: int, maxSize: int)
  {
    enc(UpscaledTimes(img, k), q) < minSize && enc(UpscaledTimes(img, k), q) < maxSize
  }

  /** The upscale loop, entered with `iteration` upscales already committed. */
  function UpscaleLoop(enc: Encoder, img: Image, out: Jpeg, q: nat, minSize: int, maxSize: int, iteration: nat): UpscaleRun
    requires iteration <= MAX_UPSCALE_ITERATIONS
    decreases MAX_UPSCALE_ITERATIONS - iteration
  {
    if out.size < minSize && iteration < MAX_UPSCALE_ITERATIONS then
      if out.size >= maxSize then UpscaleRun(out, img, iteration)
      else
        var candidate := Encode(enc, Upscaled(img), q);
        if candidate.size > maxSize then UpscaleRun(out, img, iteration)
        else UpscaleLoop(enc, Upscaled(img), candidate, q, minSize, maxSize, iteration + 1)
    else UpscaleRun(out, img, iteration)
  }

  /** The whole of upscale_to_min_size: the early exit, the quality raise, the loop. */
  function UpscaleSpec(enc: Encoder, image: Image, output: Jpeg, quality: nat, minSize: int, maxSize: int): UpscaleRun
  {
    if minSize <= 0 || output.size >= minSize then UpscaleRun(output, image, 0)
    else
      var start := if quality < MAX_QUALITY then Encode(enc, image, MAX_QUALITY) else output;
      UpscaleLoop(enc, image, start, RaisedQuality(quality), minSize, maxSize, 0)
  }

  /**
    The loop commits at most up to the cap; its image is the committed
    number of 1.2 upscales; every committed candidate was within the
    maximum; with no commit the buffer is the one it was given; and it stops
    only when the size reached the minimum, the cap was hit, the size reached
    the maximum, or the next candidate would be over the maximum. It goes on
    as long as it can: every buffer it held before the last one, the given
    buffer included, was under both the minimum and the maximum.
   */
  lemma {:induction false} UpscaleLoopExit(enc: Encoder, img: Image, out: Jpeg, q: nat, minSize: int, maxSize: int, iteration: nat)
    requires iteration <= MAX_UPSCALE_ITERATIONS
    ensures var r := UpscaleLoop(enc, img, out, q, minSize, maxSize, iteration);
      iteration <= r.iterations <= MAX_UPSCALE_ITERATIONS
      && r.image == UpscaledTimes(img, r.iterations - iteration)
      && (r.iterations == iteration ==> r.output == out)
      && (r.iterations > iteration ==> r.output == Encode(enc, r.image, q) && r.output.size <= maxSize)
      && (forall k :: 0 < k <= r.iterations - iteration ==> CommitFits(enc, img, k, q, maxSize))
      && (r.output.size >= minSize || r.iterations == MAX_UPSCALE_ITERATIONS || r.output.size >= maxSize
          || enc(Upscaled(r.image), q) > maxSize)
      && (r.iterations > iteration ==> out.size < minSize && out.size < maxSize)
      && (forall j :: 0 < j < r.iterations - iteration ==> Undersized(enc, img, j, q, minSize, maxSize))
    decreases MAX_UPSCALE_ITERATIONS - iteration
  {
    var r := UpscaleLoop(enc, img, out, q, minSize, maxSize, iteration);
    if out.size < minSize && iteration < MAX_UPSCALE_ITERATIONS && out.size < maxSize
       && enc(Upscaled(img), q) <= maxSize {
      var up := Upscaled(img);
      var candidate := Encode(enc, up, q);
      UpscaleLoopExit(enc, up, candidate, q, minSize, maxSize, iteration + 1);
      assert r == UpscaleLoop(enc, up, candidate, q, minSize, maxSize, iteration + 1);
      var n := r.iterations - iteration;
      assert UpscaledTimes(img, n) == UpscaledTimes(up, n - 1);
      forall k | 0 < k <= n
        ensures CommitFits(enc, img, k, q, maxSize)
      {
        if k > 1 {
          assert CommitFits(enc, up, k - 1, q, maxSize);
          assert UpscaledTimes(img, k) == UpscaledTimes(up, k - 1);
        } else {
          assert UpscaledTimes(img, 1) == up;
        }
      }
      forall j | 0 < j < n
        ensures Undersized(enc, img, j, q, minSize, maxSize)
      {
        if j > 1 {
          assert Undersized(enc, up, j - 1, q, minSize, maxSize);
          assert UpscaledTimes(img, j) == UpscaledTimes(up, j - 1);
        } else {
          assert UpscaledTimes(img, 1) == up;
        }
      }
    } else {
      assert r == UpscaleRun(out, img, iteration);
    }
  }

  /** With no minimum, or a buffer already at the minimum, it is returned unchanged. */
  lemma UpscaleEarlyExit(enc: Encoder, image: Image, output: Jpeg, quality: nat, minSize: int, maxSize: int)
    requires minSize <= 0 || output.size >= minSize
    ensures UpscaleSpec(enc, image, output, quality, minSize, maxSize) == UpscaleRun(output, image, 0)
  {
  }

  /**
    What upscale_to_min_size delivers when it does not exit early: at most
    30 upscales, each committed candidate within the maximum, the result
    encoded at the raised quality (the raise itself is not checked against
    the maximum), the exit condition of the loop, and that the loop stopped
    at the first buffer that reached the minimum or the maximum.
   */
  lemma UpscaleSpecResult(enc: Encoder, image: Image, output: Jpeg, quality: nat, minSize: int, maxSize: int)
    requires minSize > 0 && output.size < minSize
    ensures var r := UpscaleSpec(enc, image, output, quality, minSize, maxSize);
      var q := RaisedQuality(quality);
      r.iterations <= MAX_UPSCALE_ITERATIONS
      && r.image == UpscaledTimes(image, r.iterations)
      && (forall k :: 0 < k <= r.iterations ==> CommitFits(enc, image, k, q, maxSize))
      && (r.iterations > 0 ==> r.output == Encode(enc, r.image, q) && r.output.size <= maxSize)
      && (r.iterations == 0 ==> r.output == if quality < MAX_QUALITY then Encode(enc, image, MAX_QUALITY) else output)
      && (r.output.size >= minSize || r.iterations == MAX_UPSCALE_ITERATIONS || r.output.size >= maxSize
          || enc(Upscaled(r.image), q) > maxSize)
      && (r.iterations > 0 ==> var start := if quality < MAX_QUALITY then Encode(enc, image, MAX_QUALITY) else output;
            start.size < minSize && start.size < maxSize)
      && (forall j :: 0 < j < r.iterations ==> Undersized(enc, image, j, q, minSize, maxSize))
  {
    var start := if quality < MAX_QUALITY then Encode(enc, image, MAX_QUALITY) else output;
    UpscaleLoopExit(enc, image, start, RaisedQuality(quality), minSize, maxSize, 0);
  }

  /** An encoder whose size jumps only at quality 100. */
  function JumpAtFullQuality(img: Image, q: nat): nat
  {
    if q == MAX_QUALITY then 500 else 50
  }

  /**
    The re-encode at quality 100 is kept even when it is over the maximum:
    here a 50-byte buffer with minimum 100 and maximum 200 comes back 500
    bytes long.
   */
  lemma RaisedQualityMayExceedMaximum(img: Image)
    ensures var r := UpscaleSpec(JumpAtFullQuality, img, Encode(JumpAtFullQuality, img, INITIAL_QUALITY), INITIAL_QUALITY, 100, 200);
      r.output.size == 500 && r.iterations == 0
  {
  }

  /** upscale_to_min_size; the candidate buffer replaces the output only when it is committed. */
  method UpscaleToMinSize(enc: Encoder, image: Image, output: Jpeg, quality: nat, minSizeBytes: int, maxSizeBytes: int)
    returns (result: Jpeg)
    ensures result == UpscaleSpec(enc, image, output, quality, minSizeBytes, maxSizeBytes).output
  {
    if minSizeBytes <= 0 || output.size >= minSizeBytes {
      return output;
    }

    var img, out, q := image, output, quality;
    if q < MAX_QUALITY {
      q := MAX_QUALITY;
      out := Encode(enc, img, q);
    }
    ghost var start := out;

    var iteration: nat := 0;
    while out.size < minSizeBytes && iteration < MAX_UPSCALE_ITERATIONS
      invariant iteration <= MAX_UPSCALE_ITERATIONS
      invariant q == RaisedQuality(quality)
      invariant UpscaleLoop(enc, img, out, q, minSizeBytes, maxSizeBytes, iteration)
             == UpscaleLoop(enc, image, start, q, minSizeBytes, maxSizeBytes, 0)
      decreases MAX_UPSCALE_ITERATIONS - iteration
    {
      if out.size >= maxSizeBytes {
        break;
      }
      var upscaled := Upscaled(img);
      var candidate := Encode(enc, upscaled, q);
      if candidate.size > maxSizeBytes {
        break;
      }
      img := upscaled;
      out := candidate;
      iteration := iteration + 1;
    }
    result := out;
  }
}
