/**
 * The detection flow of `main` in plant_disease.py: the query is compared
 * with each loaded reference record in order, one score is shown per record,
 * and the first record whose comparison is a match is reported; no later
 * record is scored. The Streamlit display and the e-mail notification are
 * not modelled; the per-record score lines are the returned trace.
 */
module Detection {
  import opened Wrappers
  import opened Similarity
  import opened Dataset

  /** The threshold `main` passes to `compare_images`. */
  const DetectionThreshold: real := 0.7

  /** One displayed score line: record `index` (shown as index + 1) scored `score`. */
  datatype Observation = Observation(index: nat, score: real)

  function Compared(v: Vision, r: ReferenceRecord, query: Gray, threshold: real): (c: Comparison) {
    CompareImages(v, r.image, query, threshold)
  }

  predicate Qualifies(v: Vision, r: ReferenceRecord, query: Gray, threshold: real) {
    Compared(v, r, query, threshold).matched
  }

  /** The lowest index at or after `from` whose record qualifies. */
  function FirstMatchFrom(v: Vision, records: seq<ReferenceRecord>, query: Gray, threshold: real, from: nat): (r: Option<nat>)
    requires from <= |records|
    ensures r.Some? ==>
      && from <= r.value < |records|
      && Qualifies(v, records[r.value], query, threshold)
      && forall j :: from <= j < r.value ==> !Qualifies(v, records[j], query, threshold)
    ensures r.None? ==> forall j :: from <= j < |records| ==> !Qualifies(v, records[j], query, threshold)
    decreases |records| - from
  {
    if from == |records| then None
    else if Qualifies(v, records[from], query, threshold) then Some(from)
    else FirstMatchFrom(v, records, query, threshold, from + 1)
  }

  /** The first-match decision: the lowest qualifying index, or None. */
  function FirstMatch(v: Vision, records: seq<ReferenceRecord>, query: Gray, threshold: real): (r: Option<nat>) {
    FirstMatchFrom(v, records, query, threshold, 0)
  }

  /** The first-match decision is the unique lowest qualifying index. */
  lemma FirstMatchIs(v: Vision, records: seq<ReferenceRecord>, query: Gray, threshold: real, k: nat)
    requires k < |records| && Qualifies(v, records[k], query, threshold)
    requires forall j :: 0 <= j < k ==> !Qualifies(v, records[j], query, threshold)
    ensures FirstMatch(v, records, query, threshold) == Some(k)
  {
  }

  /**
   * The score lines the scan produces: one per record up to and including
   * the first match, or one per record when nothing matches; line `j` is
   * record `j`'s compared score.
   */
  function Trace(v: Vision, records: seq<ReferenceRecord>, query: Gray, threshold: real): (r: seq<Observation>)
    ensures FirstMatch(v, records, query, threshold).Some? ==> |r| == FirstMatch(v, records, query, threshold).value + 1
    ensures FirstMatch(v, records, query, threshold).None? ==> |r| == |records|
    ensures forall j :: 0 <= j < |r| ==> j < |records| && r[j] == Observation(j, Compared(v, records[j], query, threshold).score)
  {
    var n := match FirstMatch(v, records, query, threshold)
             case Some(k) => k + 1
             case None => |records|;
    seq(n, j requires 0 <= j < n => Observation(j, Compared(v, records[j], query, threshold).score))
  }

  /**
   * The loop of `main` over `enumerate(images_data)`: scores each record in
   * order, stops at the first match. `found` is the matching index, None
   * when `disease_detected` stays False.
   */
  method ScanRecords(v: Vision, imagesData: seq<ReferenceRecord>, capturedGray: Gray, threshold: real)
    returns (trace: seq<Observation>, found: Option<nat>)
    ensures found.Some? ==>
      && found.value < |imagesData|
      && Qualifies(v, imagesData[found.value], capturedGray, threshold)
      && forall j :: 0 <= j < found.value ==> !Qualifies(v, imagesData[j], capturedGray, threshold)
    ensures found.None? ==> forall j :: 0 <= j < |imagesData| ==> !Qualifies(v, imagesData[j], capturedGray, threshold)
    ensures |trace| == if found.Some? then found.value + 1 else |imagesData|
    ensures forall j :: 0 <= j < |trace| ==>
      trace[j] == Observation(j, Compared(v, imagesData[j], capturedGray, threshold).score)
    ensures found == FirstMatch(v, imagesData, capturedGray, threshold)
    ensures trace == Trace(v, imagesData, capturedGray, threshold)
  {
    trace := [];
    found := None;
    var diseaseDetected := false;
    var i := 0;
    while i < |imagesData|
      invariant 0 <= i <= |imagesData|
      invariant !diseaseDetected && found.None?
      invariant |trace| == i
      invariant forall j :: 0 <= j < i ==> trace[j] == Observation(j, Compared(v, imagesData[j], capturedGray, threshold).score)
      invariant forall j :: 0 <= j < i ==> !Qualifies(v, imagesData[j], capturedGray, threshold)
    {
      var comparison := CompareImages(v, imagesData[i].image, capturedGray, threshold);
      trace := trace + [Observation(i, comparison.score)];
      if comparison.matched {
        diseaseDetected := true;
        found := Some(i);
        FirstMatchIs(v, imagesData, capturedGray, threshold, i);
        break;
      }
      i := i + 1;
    }
    assert diseaseDetected == found.Some?;
  }

  /** The query as `main` obtains it. */
  datatype Query =
    | NoImage                // nothing captured or uploaded
    | Unconvertible          // cv2.cvtColor to gray raised
    | Captured(gray: Gray)

  /** What `main` ends up reporting. */
  datatype Outcome =
    | Idle
    | ImageProcessingError
    | CsvNotFound
    | NoValidImages
    | DiseaseDetected(index: nat, diseaseLabel: Cell, fertilizer: Cell, score: real)
    | NoDiseaseDetected

  /**
   * `main` from the captured image on: convert, check the table file,
   * load the records, stop with an error on an empty list, then scan with
   * threshold 0.7 and report the first match or "no disease".
   */
  method Detect(v: Vision, query: Query, csvExists: bool, table: Option<Table>, listing: Option<seq<string>>,
                decode: string -> Option<Gray>)
    returns (trace: seq<Observation>, outcome: Outcome)
    requires table.Some? ==> table.value.WellFormed()
    ensures query.NoImage? ==> outcome == Idle
    ensures query.Unconvertible? ==> outcome == ImageProcessingError
    ensures query.Captured? && !csvExists ==> outcome == CsvNotFound
    ensures query.Captured? && csvExists && LoadImages(table, listing, decode) == [] ==> outcome == NoValidImages
    ensures !query.Captured? || !csvExists || LoadImages(table, listing, decode) == [] ==> trace == []
    ensures query.Captured? && csvExists && LoadImages(table, listing, decode) != [] ==>
      var records := LoadImages(table, listing, decode);
      && trace == Trace(v, records, query.gray, DetectionThreshold)
      && (outcome.DiseaseDetected? || outcome.NoDiseaseDetected?)
      && (outcome.NoDiseaseDetected? <==> FirstMatch(v, records, query.gray, DetectionThreshold).None?)
      && (outcome.DiseaseDetected? ==>
            && FirstMatch(v, records, query.gray, DetectionThreshold) == Some(outcome.index)
            && outcome.index < |records|
            && outcome.diseaseLabel == records[outcome.index].diseaseLabel
            && outcome.fertilizer == records[outcome.index].fertilizer
            && outcome.score == Compared(v, records[outcome.index], query.gray, DetectionThreshold).score
            && outcome.score >= DetectionThreshold)
  {
    trace := [];
    match query
    case NoImage =>
      outcome := Idle;
    case Unconvertible =>
      outcome := ImageProcessingError;
    case Captured(capturedGray) =>
      if !csvExists {
        outcome := CsvNotFound;
        return;
      }
      var imagesData := LoadImagesFromCsv(table, listing, decode);
      if imagesData == [] {
        outcome := NoValidImages;
        return;
      }
      var found;
      trace, found := ScanRecords(v, imagesData, capturedGray, DetectionThreshold);
      match found
      case Some(i) =>
        var record := imagesData[i];
        outcome := DiseaseDetected(i, record.diseaseLabel, record.fertilizer,
                                   CompareImages(v, record.image, capturedGray, DetectionThreshold).score);
      case None =>
        outcome := NoDiseaseDetected;
  }

  /**
   * Early exit: once record `k` is the first match, the records after it
   * play no part. Any collection agreeing with this one up to `k` has the
   * same decision and the same score lines, however its later records would
   * score.
   */
  lemma LaterRecordsNeverScored(v: Vision, records: seq<ReferenceRecord>, others: seq<ReferenceRecord>,
                                query: Gray, threshold: real, k: nat)
    requires FirstMatch(v, records, query, threshold) == Some(k)
    requires k < |others| && others[..k + 1] == records[..k + 1]
    ensures FirstMatch(v, others, query, threshold) == Some(k)
    ensures Trace(v, others, query, threshold) == Trace(v, records, query, threshold)
  {
    forall j | 0 <= j <= k ensures others[j] == records[j] {
      assert others[..k + 1][j] == records[..k + 1][j];
    }
    FirstMatchIs(v, others, query, threshold, k);
  }

  /**
   * With no qualifying record the whole collection is scored, once per
   * record, in order.
   */
  lemma NoMatchScoresEveryRecord(v: Vision, records: seq<ReferenceRecord>, query: Gray, threshold: real)
    requires forall j :: 0 <= j < |records| ==> !Qualifies(v, records[j], query, threshold)
    ensures FirstMatch(v, records, query, threshold).None?
    ensures |Trace(v, records, query, threshold)| == |records|
    ensures forall j :: 0 <= j < |records| ==> Trace(v, records, query, threshold)[j].index == j
  {
  }

  /**
   * A library whose resize keeps the samples and whose SSIM reads the score
   * off the reference's first sample, in hundredths; a first sample of zero or
   * less makes the comparison raise.
   */
  function Percent(): Vision {
    Vision((image: Gray, width: nat, height: nat) => Some(image.samples),
           (a: Gray, b: Gray) => if |a.samples| > 0 && a.samples[0] > 0 then Some(a.samples[0] as real / 100.0) else None)
  }

  function Ref(percent: int): ReferenceRecord {
    ReferenceRecord(Gray(1, 1, [percent]), Text("blight"), Text(NotAvailable))
  }

  lemma PercentScore(percent: int, query: Gray)
    ensures Compared(Percent(), Ref(percent), query, DetectionThreshold) ==
      if percent > 0 then Comparison(percent as real / 100.0 >= DetectionThreshold, percent as real / 100.0)
      else Comparison(false, 0.0)
  {
    assert Resize(Percent(), Ref(percent).image, query.width, query.height) == Some(Gray(query.height, query.width, [percent]));
  }

  /**
   * First match, not best match: with scores 0.5, 0.9, 0.95 and threshold 0.7
   * the record at index 1 is reported and exactly two records are scored,
   * although the third scores higher.
   */
  lemma FirstMatchNotBestMatch(query: Gray)
    ensures var records := [Ref(50), Ref(90), Ref(95)];
      && FirstMatch(Percent(), records, query, DetectionThreshold) == Some(1)
      && Trace(Percent(), records, query, DetectionThreshold) == [Observation(0, 0.5), Observation(1, 0.9)]
      && Compared(Percent(), records[2], query, DetectionThreshold).score > Compared(Percent(), records[1], query, DetectionThreshold).score
  {
    var records := [Ref(50), Ref(90), Ref(95)];
    PercentScore(50, query);
    PercentScore(90, query);
    PercentScore(95, query);
    FirstMatchIs(Percent(), records, query, DetectionThreshold, 1);
  }

  /** Scores 0.1, 0.2, 0.3 against 0.7: no match, three score lines in order. */
  lemma AllBelowThreshold(query: Gray)
    ensures var records := [Ref(10), Ref(20), Ref(30)];
      && FirstMatch(Percent(), records, query, DetectionThreshold).None?
      && Trace(Percent(), records, query, DetectionThreshold) == [Observation(0, 0.1), Observation(1, 0.2), Observation(2, 0.3)]
  {
    var records := [Ref(10), Ref(20), Ref(30)];
    PercentScore(10, query);
    PercentScore(20, query);
    PercentScore(30, query);
    NoMatchScoresEveryRecord(Percent(), records, query, DetectionThreshold);
  }

  /**
   * A record whose comparison fails is shown with score 0.0 and the scan goes
   * on: a later qualifying record is still found.
   */
  lemma FailureDoesNotAbortScan(query: Gray)
    ensures var records := [Ref(40), Ref(0), Ref(80)];
      && FirstMatch(Percent(), records, query, DetectionThreshold) == Some(2)
      && Trace(Percent(), records, query, DetectionThreshold) == [Observation(0, 0.4), Observation(1, 0.0), Observation(2, 0.8)]
  {
    var records := [Ref(40), Ref(0), Ref(80)];
    PercentScore(40, query);
    PercentScore(0, query);
    PercentScore(80, query);
    FirstMatchIs(Percent(), records, query, DetectionThreshold, 2);
  }
}
