/**
  compress_to_max_size: descend the quality ladder 95, 90, ..., 10 until the
  encoding fits, then shrink the image by 0.9 per step until it fits or the
  next size would fall below 100 pixels on a side.

  DownscaleSearch and CompressSpec define the search as recursive functions
  (what the pipeline and the lemmas use); CompressToMaxSize is the loop of
  the source, proved to compute CompressSpec.
 */
module SizeReducer {
  import opened Imaging

  /** The qualities the ladder visits: 95, 90, ..., 15, 10. */
  predicate OnLadder(q: nat)
  {
    MIN_QUALITY <= q <= INITIAL_QUALITY && q % QUALITY_STEP == 0
  }

  /** The encoding of `img` at `q` is over the byte target. */
  predicate TooBig(enc: Encoder, img: Image, q: nat, target: int)
  {
    enc(img, q) > target
  }

  /** One downscale step: both sides times 0.9, rounded down. */
  function Downscaled(img: Image): (r: Image)
    ensures r.mode == img.mode && r.width <= img.width && r.height <= img.height
    ensures img.width > 0 ==> r.width < img.width
    ensures img.height > 0 ==> r.height < img.height
    ensures r.width * 10 <= img.width * 9 < r.width * 10 + 10
    ensures r.height * 10 <= img.height * 9 < r.height * 10 + 10
  {
    Image(img.width * DOWNSCALE_NUM / DOWNSCALE_DEN, img.height * DOWNSCALE_NUM / DOWNSCALE_DEN, img.mode)
  }

  /** `k` downscale steps. */
  function DownscaledTimes(img: Image, k: nat): Image
    decreases k
  {
    if k == 0 then img else DownscaledTimes(Downscaled(img), k - 1)
  }

  /** Some side is under the minimum dimension. */
  predicate BelowFloor(img: Image)
  {
    img.width < MIN_DIMENSION || img.height < MIN_DIMENSION
  }

  /** The quality-lowering loop, started at quality `q`. */
  function LadderQuality(enc: Encoder, img: Image, target: int, q: nat): nat
    decreases q
  {
    if TooBig(enc, img, q, target) && q > MIN_QUALITY then LadderQuality(enc, img, target, q - QUALITY_STEP) else q
  }

  /** The downscale loop at fixed quality `q`. */
  function DownscaleSearch(enc: Encoder, img: Image, q: nat, target: int): Image
    decreases img.width
  {
    if !TooBig(enc, img, q, target) then img
    else
      var next := Downscaled(img);
      if BelowFloor(next) then img else DownscaleSearch(enc, next, q, target)
  }

  /** The buffer, quality and image compress_to_max_size returns. */
  function CompressSpec(enc: Encoder, img: Image, target: int): Jpeg
  {
    var q := LadderQuality(enc, img, target, INITIAL_QUALITY);
    Encode(enc, DownscaleSearch(enc, img, q, target), q)
  }

  /**
    The quality loop stays on the ladder, moving down in steps of 5; it
    stops on the first rung where the encoding fits, or at 10, and every
    rung it passed was over the target.
   */
  lemma {:induction false} LadderQualityExit(enc: Encoder, img: Image, target: int, q: nat)
    requires OnLadder(q)
    ensures var r := LadderQuality(enc, img, target, q);
      OnLadder(r) && r <= q
      && (!TooBig(enc, img, r, target) || r == MIN_QUALITY)
      && forall k :: r < k <= q && k % QUALITY_STEP == 0 ==> TooBig(enc, img, k, target)
    decreases q
  {
    if TooBig(enc, img, q, target) && q > MIN_QUALITY {
      LadderQualityExit(enc, img, target, q - QUALITY_STEP);
    }
  }

  /** The `j`-th shrink is still over the target and the next one stays above the floor: the loop goes on. */
  predicate ShrinkContinues(enc: Encoder, img: Image, j: nat, q: nat, target: int)
  {
    TooBig(enc, DownscaledTimes(img, j), q, target) && !BelowFloor(DownscaledTimes(img, j + 1))
  }

  /**
    The downscale loop returns the `k`-th successive 0.9 shrink of its input
    where every earlier shrink was still over the target with the next one
    above the floor; it never commits a size below the floor, an input
    already below the floor comes back unchanged, and it stops when the
    encoding fits or the next shrink would cross the floor.
   */
  lemma {:induction false} DownscaleSearchExit(enc: Encoder, img: Image, q: nat, target: int)
    ensures var r := DownscaleSearch(enc, img, q, target);
      (exists k: nat :: r == DownscaledTimes(img, k) && forall j: nat :: j < k ==> ShrinkContinues(enc, img, j, q, target))
      && (r == img || !BelowFloor(r))
      && (BelowFloor(img) ==> r == img)
      && r.mode == img.mode && r.width <= img.width && r.height <= img.height
      && (!TooBig(enc, r, q, target) || BelowFloor(Downscaled(r)))
    decreases img.width
  {
    var r := DownscaleSearch(enc, img, q, target);
    if !TooBig(enc, img, q, target) || BelowFloor(Downscaled(img)) {
      assert r == DownscaledTimes(img, 0);
    } else {
      var next := Downscaled(img);
      DownscaleSearchExit(enc, next, q, target);
      var k: nat :| r == DownscaledTimes(next, k) && forall j: nat :: j < k ==> ShrinkContinues(enc, next, j, q, target);
      assert r == DownscaledTimes(img, k + 1);
      forall j: nat | j < k + 1
        ensures ShrinkContinues(enc, img, j, q, target)
      {
        if j > 0 {
          assert ShrinkContinues(enc, next, j - 1, q, target);
          assert DownscaledTimes(img, j) == DownscaledTimes(next, j - 1);
          assert DownscaledTimes(img, j + 1) == DownscaledTimes(next, j);
        } else {
          assert DownscaledTimes(img, 1) == next;
        }
      }
    }
  }

  /**
    The loop stops at the first shrink that fits: if the `j`-th shrink fits
    at `q` and no shrink up to it crosses the floor, the result fits, and
    it is one of those first `j` shrinks.
   */
  lemma DownscaleStopsAtFirstFit(enc: Encoder, img: Image, q: nat, target: int, j: nat)
    requires forall i: nat :: 0 < i <= j ==> !BelowFloor(DownscaledTimes(img, i))
    requires !TooBig(enc, DownscaledTimes(img, j), q, target)
    ensures var r := DownscaleSearch(enc, img, q, target);
      !TooBig(enc, r, q, target) && exists k: nat :: k <= j && r == DownscaledTimes(img, k)
  {
    var r := DownscaleSearch(enc, img, q, target);
    DownscaleSearchExit(enc, img, q, target);
    var k: nat :| r == DownscaledTimes(img, k) && forall i: nat :: i < k ==> ShrinkContinues(enc, img, i, q, target);
    assert !ShrinkContinues(enc, img, j, q, target);
    if k < j {
      assert DownscaledTimes(img, k + 1) == Downscaled(r) by { DownscaledTimesStep(img, k); }
      assert !BelowFloor(DownscaledTimes(img, k + 1));
    }
  }

  /** One more shrink after `k` of them. */
  lemma {:induction false} DownscaledTimesStep(img: Image, k: nat)
    ensures DownscaledTimes(img, k + 1) == Downscaled(DownscaledTimes(img, k))
    decreases k
  {
    if k > 0 {
      DownscaledTimesStep(Downscaled(img), k - 1);
    }
  }

  /**
    What compress_to_max_size delivers: a buffer holding the encoding of the
    returned image at a ladder quality; it fits the target unless the ladder
    reached 10 and the image reached the size floor; the image is resized
    only after the ladder reached 10, and never below the floor.
   */
  lemma CompressSpecResult(enc: Encoder, img: Image, target: int)
    ensures var c := CompressSpec(enc, img, target);
      OnLadder(c.quality) && c.size == enc(c.image, c.quality)
      && (c.size <= target || (c.quality == MIN_QUALITY && BelowFloor(Downscaled(c.image))))
      && (c.image != img ==> c.quality == MIN_QUALITY && !BelowFloor(c.image))
      && (exists k: nat :: c.image == DownscaledTimes(img, k)
            && forall j: nat :: j < k ==> ShrinkContinues(enc, img, j, c.quality, target))
  {
    var q := LadderQuality(enc, img, target, INITIAL_QUALITY);
    LadderQualityExit(enc, img, target, INITIAL_QUALITY);
    DownscaleSearchExit(enc, img, q, target);
  }

  /** If the first encoding at 95 fits, quality 95 and the untouched image come back. */
  lemma FirstEncodingFits(enc: Encoder, img: Image, target: int)
    requires enc(img, INITIAL_QUALITY) <= target
    ensures CompressSpec(enc, img, target) == Jpeg(img, INITIAL_QUALITY, enc(img, INITIAL_QUALITY))
  {
  }

  /** compress_to_max_size, with the output buffer rewritten on every step. */
  method CompressToMaxSize(enc: Encoder, image: Image, targetSizeBytes: int)
    returns (output: Jpeg, quality: nat, resized: Image)
    ensures output == CompressSpec(enc, image, targetSizeBytes)
    ensures quality == output.quality && resized == output.image
  {
    quality := INITIAL_QUALITY;
    resized := image;
    output := Encode(enc, resized, quality);

    while output.size > targetSizeBytes && quality > MIN_QUALITY
      invariant output == Encode(enc, image, quality)
      invariant LadderQuality(enc, image, targetSizeBytes, quality) == LadderQuality(enc, image, targetSizeBytes, INITIAL_QUALITY)
      decreases quality
    {
      quality := quality - QUALITY_STEP;
      output := Encode(enc, image, quality);
    }

    if output.size > targetSizeBytes {
      while output.size > targetSizeBytes
        invariant output == Encode(enc, resized, quality)
        invariant DownscaleSearch(enc, resized, quality, targetSizeBytes) == DownscaleSearch(enc, image, quality, targetSizeBytes)
        decreases resized.width
      {
        var next := Downscaled(resized);
        if BelowFloor(next) {
          break;
        }
        resized := next;
        output := Encode(enc, resized, quality);
      }
    }
  }
}
