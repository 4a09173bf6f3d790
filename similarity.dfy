/**
 * The per-record decision of plant_disease.py (`compare_images`): the
 * reference image is resized to the query's shape, SSIM is taken, and the
 * score is compared with a threshold. The image library itself (cv2.resize,
 * skimage's structural_similarity) is left uninterpreted: a `Vision` value
 * supplies both, each of which may fail (the Python code's exception path).
 */
module Similarity {
  import opened Wrappers

  /** A single-channel image: `height` rows of `width` samples, row-major. */
  datatype Gray = Gray(height: nat, width: nat, samples: seq<int>)

  /**
   * The foreign image library. `resample(image, width, height)` is the pixel
   * computation of cv2.resize with target size (width, height); `ssim(a, b)`
   * is structural_similarity(a, b). Either yields None where it raises.
   */
  datatype Vision = Vision(
    resample: (Gray, nat, nat) -> Option<seq<int>>,
    ssim: (Gray, Gray) -> Option<real>)

  /** The default threshold of `compare_images`. */
  const DefaultThreshold: real := 0.8

  predicate SameShape(a: Gray, b: Gray) {
    a.height == b.height && a.width == b.width
  }

  /** cv2.resize(image, (width, height)): the result has exactly the requested shape. */
  function Resize(v: Vision, image: Gray, width: nat, height: nat): (r: Option<Gray>)
    ensures r.Some? ==> r.value.width == width && r.value.height == height
    ensures r.None? <==> v.resample(image, width, height).None?
    ensures r.Some? ==> r.value.samples == v.resample(image, width, height).value
  {
    match v.resample(image, width, height)
    case None => None
    case Some(samples) => Some(Gray(height, width, samples))
  }

  /**
   * The similarity of `reference` against `query`: the reference, never the
   * query, is resized to the query's width and height, and SSIM is then taken
   * with the resized reference first and the query, unchanged, second.
   */
  function Score(v: Vision, reference: Gray, query: Gray): (r: Option<real>)
    ensures r.Some? ==>
      exists resized :: SameShape(resized, query)
        && Resize(v, reference, query.width, query.height) == Some(resized)
        && v.ssim(resized, query) == r
    ensures Resize(v, reference, query.width, query.height).None? ==> r.None?
    ensures Resize(v, reference, query.width, query.height).Some? ==>
      r == v.ssim(Resize(v, reference, query.width, query.height).value, query)
  {
    match Resize(v, reference, query.width, query.height)
    case None => None
    case Some(resized) =>
      assert SameShape(resized, query);
      v.ssim(resized, query)
  }

  /** The pair `(match_found, score)` that `compare_images` returns. */
  datatype Comparison = Comparison(matched: bool, score: real)

  /**
   * compare_images(image1, image2, threshold): the flag is set exactly when a
   * score was computed and reaches the threshold; the computed score is always
   * returned beside it; a failure of resizing or scoring is absorbed into
   * (False, 0.0) and never propagated.
   */
  function CompareImages(v: Vision, image1: Gray, image2: Gray, threshold: real): (r: Comparison)
    ensures r.matched <==> Score(v, image1, image2).Some? && Score(v, image1, image2).value >= threshold
    ensures Score(v, image1, image2).Some? ==> r.score == Score(v, image1, image2).value
    ensures Score(v, image1, image2).None? ==> r.score == 0.0 && !r.matched
    ensures r.matched ==> r.score >= threshold
  {
    match Score(v, image1, image2)
    case None => Comparison(false, 0.0)
    case Some(s) => Comparison(s >= threshold, s)
  }

  /**
   * The flag is NOT a function of the returned score: with a threshold at or
   * below zero a failed comparison reports a score meeting the threshold and
   * still no match, while a computed score of 0.0 does match.
   */
  lemma FlagNotDeterminedByScore(v: Vision, failing: Gray, zero: Gray, query: Gray, threshold: real)
    requires threshold <= 0.0
    requires Score(v, failing, query).None?
    requires Score(v, zero, query) == Some(0.0)
    ensures CompareImages(v, failing, query, threshold) == Comparison(false, 0.0)
    ensures CompareImages(v, zero, query, threshold) == Comparison(true, 0.0)
  {
  }

  /**
   * With a positive threshold, a failed computation and a genuine score of 0.0
   * cannot be told apart by the caller.
   */
  lemma FailureLooksLikeZero(v: Vision, failing: Gray, zero: Gray, query: Gray, threshold: real)
    requires threshold > 0.0
    requires Score(v, failing, query).None?
    requires Score(v, zero, query) == Some(0.0)
    ensures CompareImages(v, failing, query, threshold) == CompareImages(v, zero, query, threshold)
  {
  }
}
