# Plant disease detection: the matching core, in Dafny

This project models the decision logic of `plant_disease.py`, a Streamlit app.
The app compares a captured leaf image with a labelled set of reference
images. It reports the disease label and fertilizer recommendation of the
first reference whose SSIM score reaches a threshold, or "no disease".

The model has three parts:

- **Per-record decision** (`Similarity`). `compare_images` resizes the
  reference to the query's width and height, takes SSIM with the resized
  reference first, and returns `(score >= threshold, score)`. When anything
  raises it returns `(False, 0.0)`. The image library is a `Vision` value
  with two uninterpreted operations: `resample`, the pixel part of
  cv2.resize, and `ssim`. Each returns `None` where the library would raise.
  The model builds the resized image with exactly the requested shape, as
  cv2.resize does.
- **Reference loading** (`Paths`, `Dataset`). `load_images_from_csv`
  lower-cases the image id's stem after `os.path.splitext`. It probes
  `.jpg`, `.jpeg` and `.png` in that order against the lower-cased directory
  listing and stops at the first listed name. It appends a record only when
  that file decodes. The fertilizer defaults to `"N/A"` when the column is
  absent. The parsed table, the listing and the decoder are inputs:
  `None` stands for pandas failing to read the file, the directory failing
  to list, or cv2.imread returning None. `LoadImagesFromCsv` is the loop
  itself, with its nested probe loop and `break`. It is proved equal to the
  specification function `LoadImages`.
- **First-match scan** (`Detection`). `ScanRecords` is the `for` loop of
  `main`. It returns the score line of each record it scores, in order, and
  the index where it stopped. `Detect` is `main` from the captured image on:
  the error exits, loading, the empty-list check, the scan with threshold
  0.7, and the reported outcome.

Behaviour of the code worth knowing:

- The loader never fails as a whole. A missing `image_id` or `label` column,
  an unreadable table or an unlistable directory yield the empty list, which
  `main` reports as "no valid images".
- A row whose `image_id` cell is not text (a number or NaN from pandas)
  makes `os.path.splitext` raise inside the loop. The records gathered so
  far are returned and the remaining rows are not looked at.
- The scan is never run on an empty collection: `main` stops before it.
- On a match the reported score is that record's score. No score is reported
  when no record matches.

## Model

| member | source | states |
|---|---|---|
| `Similarity.Resize` | plant_disease.py:72 | a successful resize has exactly the requested width and height and holds exactly the pixels the library's resampling produced; it fails exactly when that resampling fails |
| `Similarity.Score` | plant_disease.py:72-73 | a score exists only when the reference, not the query, was resized to the query's width and height and SSIM was taken as (resized reference, query); a successful resize gives exactly that SSIM result; a failed resize gives no score |
| `Similarity.CompareImages` | plant_disease.py:69-77 | the flag is true exactly when a score was computed and is at least the threshold; a computed score is returned unchanged beside the flag; a failure gives flag false and score 0.0 and is not propagated |
| `Similarity.FlagNotDeterminedByScore` | plant_disease.py:74-77 | with a threshold at or below 0, a failed comparison reports a score that meets the threshold yet no match, while a genuine 0.0 matches |
| `Similarity.FailureLooksLikeZero` | plant_disease.py:75-77 | with a positive threshold a failed comparison and a genuine score of 0.0 give the same result |
| `Paths.LastIndex` | plant_disease.py:50 | the index of the last occurrence of a character, -1 when absent, as the extension split uses it |
| `Paths.SplitExt` | plant_disease.py:50 | root + extension rebuilds the id; the extension is empty or one dot followed by no dot and no separator; an extension is split off only when the last path component has a non-dot before its last dot, and when none is split off every dot of that component has only dots before it |
| `Paths.Lower` | plant_disease.py:47 | the result has the input's length; each ASCII capital becomes its lower-case letter and every other character is kept |
| `Paths.LowerAll` | plant_disease.py:47 | the listing keeps its length, and a name is in it exactly when it is the lower-cased form of some listed file |
| `Paths.LowerIdempotent` | plant_disease.py:47 | lower-casing an already lower-cased name changes nothing |
| `Paths.SplitExtLower` | plant_disease.py:50 | splitting a lower-cased id gives the lower-cased parts of splitting the id |
| `Paths.SplitExtDropsLastExtension` | plant_disease.py:50 | "Leaf_01.JPG" splits into "Leaf_01" and ".JPG" |
| `Paths.SplitExtKeepsInnerDots` | plant_disease.py:50 | only the final extension is stripped: "leaf.v2.png" keeps "leaf.v2" |
| `Paths.SplitExtLeadingDot` | plant_disease.py:50 | a leading dot is not an extension: ".hidden" has none |
| `Paths.SplitExtDotInDirectory` | plant_disease.py:50 | a dot in a directory part is not an extension |
| `Dataset.Stem` | plant_disease.py:50 | the lower-cased stem followed by the lower-cased extension gives back the lower-cased id, and it is no longer than the id |
| `Dataset.FertilizerOf` | plant_disease.py:52 | the row's fertilizer cell when the column exists, "N/A" otherwise |
| `Dataset.FirstPresent` | plant_disease.py:54-56 | the probe's stopping point is the first extension, in .jpg, .jpeg, .png order, whose stem + extension is listed; no earlier candidate is listed; None means none of them is |
| `Dataset.ProbeImage` | plant_disease.py:54-59 | the probe yields an image only as the decoding of the first listed candidate name; whenever a candidate is listed with none before it, the result is exactly its decoding; nothing listed gives none |
| `Dataset.RowRecord` | plant_disease.py:50-61 | a row's record carries the row's label and fertilizer; its image is the decoding of the first listed candidate; it exists exactly when that candidate decodes; with no candidate listed there is none |
| `Dataset.FirstUnreadable` | plant_disease.py:49-50 | the loop gets as far as the first row whose image id splitext rejects: every row before it is readable, and that row is not |
| `Dataset.OriginsOrdered` | plant_disease.py:49-61 | every appended record is the record of one row; the source rows strictly increase, so records keep row order and no row yields two |
| `Dataset.OriginsComplete` | plant_disease.py:56-61 | a row contributes a record exactly when its resolution succeeds |
| `Dataset.ResolvedRowIsLoaded` | plant_disease.py:49-61 | a readable row before the first unreadable one whose resolution succeeds is in the loaded list |
| `Dataset.ProbeRow` | plant_disease.py:54-62 | the extension loop with its break appends exactly the record built from the probe's image, the row's label and fertilizer, and nothing when the probe yields no image |
| `Dataset.LoadImagesFromCsv` | plant_disease.py:38-66 | the nested loops with their break return exactly the list `LoadImages` specifies, including every error exit |
| `Dataset.LoadAtMostOnePerRow` | plant_disease.py:49-62 | no more records are loaded than the table has rows |
| `Dataset.LoadImages` | plant_disease.py:38-66 | an unreadable table, a missing image_id or label column or an unlistable directory give the empty list |
| `Dataset.LoadedRecordIsRowRecord` | plant_disease.py:49-61 | every loaded record, a lone one included, is the record of some readable row before the first unreadable one |
| `Dataset.NothingResolvedLoadsNothing` | plant_disease.py:49-61 | when no row before the first unreadable one resolves, the loaded list is empty, which `main` reports as no valid images (lines 116-118) |
| `Dataset.LoadKeepsRowOrder` | plant_disease.py:49-61 | of two loaded records the earlier one is the resolution of an earlier readable row |
| `Dataset.FertilizerDefaultsToNotAvailable` | plant_disease.py:52 | without a fertilizer column every loaded record carries "N/A" |
| `Dataset.ProbeStopsAtFirstListed` | plant_disease.py:54-62 | a row's record is decided by decoding the first listed candidate alone; label and fertilizer come from the row; later extensions are never tried, even when that file fails to decode |
| `Dataset.UnlistedRowOmitted` | plant_disease.py:54-56 | a row none of whose three candidate names is listed is omitted |
| `Dataset.RowRecordIgnoresIdCase` | plant_disease.py:47-50 | the lookup is case-insensitive: lower-casing the image id does not change the row's record |
| `Dataset.RowsAfterUnreadableIgnored` | plant_disease.py:49-50 | rows after the first one with a non-text image id do not affect the loaded list |
| `Dataset.UndecodableJpgHidesPng` | plant_disease.py:54-62 | with "LEAF.JPG" listed but undecodable and "leaf.png" decodable, the id "Leaf.png" loads nothing |
| `Detection.FirstMatchFrom` | plant_disease.py:123-136 | the decision is the lowest index whose comparison matches, with no match before it; None means no record matches |
| `Detection.Trace` | plant_disease.py:123-136 | the score lines stop at the first match, one per scored record (all records when none matches), line j showing index j and record j's compared score |
| `Detection.FirstMatchIs` | plant_disease.py:123-136 | a matching record with no match before it is the decision |
| `Detection.ScanRecords` | plant_disease.py:120-136 | the loop stops at the first matching record; it records one score line per scored record, indices 0..k in order, each with that record's compared score; with no match it scores every record once |
| `Detection.LaterRecordsNeverScored` | plant_disease.py:123-136 | records after the first match have no effect on the decision or on the score lines |
| `Detection.NoMatchScoresEveryRecord` | plant_disease.py:123-143 | with no matching record the decision is "none" and every record is scored once, in order |
| `Detection.FirstMatchNotBestMatch` | plant_disease.py:123-136 | with scores 0.5, 0.9, 0.95 at threshold 0.7 the record at index 1 is reported after two score lines, although index 2 scores higher |
| `Detection.AllBelowThreshold` | plant_disease.py:123-143 | with scores 0.1, 0.2, 0.3 the result is no match after three score lines in order |
| `Detection.FailureDoesNotAbortScan` | plant_disease.py:123-136 | a record whose comparison fails shows score 0.0 and the scan continues to a later match |
| `Detection.Detect` | plant_disease.py:99-143 | no capture does nothing; a failed gray conversion, a missing table file or an empty record list each end with their own error and no score line; otherwise the score lines are the scan's, and the outcome is the first match's index, label, fertilizer and score (at least 0.7), or "no disease" exactly when nothing matches |

## Left out

- Pixel numerics: SSIM, cv2.resize's interpolation and the colour conversions (BGR/RGB to gray) are foreign library code. They appear only as the uninterpreted `Vision` operations and as the decoded `Gray` values.
- `send_email_notification`, the SMTP transport, its credentials and recipients: network I/O. `Detect` returns the outcome from which the notification would be built.
- The Streamlit interface (checkbox, camera, uploader, messages) and the console messages printed when loading (plant_disease.py:64) or comparing (plant_disease.py:76) raises; each such failure is modelled only by the value returned. The score lines are the returned trace; the display shows index + 1 and two decimals.
- pandas, `os.listdir`, `os.path.exists` and `cv2.imread`: their results are inputs. A table cell is text or "non-text". Every row holds every column, as pandas guarantees. The folder path joined to the file name is not modelled; the decoder is keyed by the lower-cased file name, which is the name actually opened.
- Floating point: scores and thresholds are reals. NaN scores and rounding are not modelled.
- `Paths.Lower` maps only the ASCII letters. Python's `str.lower` also folds other Unicode letters.
- `Paths.SplitExt` models the POSIX `os.path.splitext`. The Windows variant also splits on backslashes and drive letters.
- The hard-coded paths, the 0.8 default of `compare_images` (present as `DefaultThreshold`, unused by `main`) and other configuration constants carry no behaviour.
