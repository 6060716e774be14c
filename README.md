# Difficulty-weighted resampling for a screw detector

The repository holds independent batch scripts around a YOLO object detector.
Four of them make the decisions modelled here:

- `apply/state.py` runs the detector over the training images and writes one row
  per image to `state.csv`: `filename, gt, pred, TP, FP, FN, avg_conf`. Boxes are
  matched by count only. TP is `min(gt, pred)`, FP is `max(0, pred - gt)` and FN is
  `max(0, gt - pred)`. The mean box confidence is 0 for an image without predictions.
- `report/state_raw.py` sums the count columns and averages the confidences. It
  derives four rates, each guarded against a zero denominator.
- `strategyrl.py` scores each row as `2·FP + 3·FN + 1·(1 − avg_conf)`. It maps the
  score to a weight by scanning the bands `(2.5, 3.0), (1.0, 2.0), (0.0, 1.0)` in
  order and taking the first band whose threshold the score reaches; the fallback
  weight is 1.0. It then reports the share of rows weighted above 1 and gives one of
  three pieces of advice.
- `create_weighted_dataset.py` copies each image `max(1, round(weight))` times, with
  its label when one exists, into a freshly cleared output tree. Copy `i > 0` gets the
  suffix `_copy{i}`.

Modules: `Common` (an `Option` type and a ratio bound), `Text` (right-to-left
search, decimal rendering and its inverse, ASCII lower-casing), `Strategy`,
`Replication`, `Evaluation`, `Report`, and `Pipeline`. `Pipeline` holds lemmas that
follow a row from `state.csv` through `weights.csv` into the weighted dataset.
Confidences, scores, weights and rates are exact `real`s. Counts are `nat`s.

The detector is a parameter of `Evaluation.CollectStats`: a function from an image
name to the confidences of its boxes. A label file is represented by its line
count, in a map keyed by label name. The source tree is the set of image names and
the set of label names. The output tree is a `Replication.OutputTree` object. Its
two maps send each destination name to the source file copied there, and its
methods stand for `rmtree`/`makedirs` and for `copy2`.

Behaviour worth knowing:

- A row with no `avg_conf` key is scored with confidence 1.0 and adds no
  uncertainty. A present confidence of 0 adds uncertainty 1.0
  (`Strategy.DifficultyDefaults`).
- The evaluator writes avg_conf 0 for an image without detections, and that value
  reaches the scorer as a present 0, not as a missing key. The comment above the
  scorer's `row.get` suggests a 0 is turned into 1.0, but the code does not do
  that. So every image without detections scores at least 1, gets weight at least
  2 and is copied at least twice, background images with no labels included
  (`Pipeline.EmptyImageCopiedTwice`).
- The bands are scanned in the order they are listed, and the first band whose
  threshold the score reaches gives the weight.
- Destination names are collision-free only within one row. Rows `a.jpg` (weight 2)
  and `a_copy1.jpg` both write `a_copy1.jpg`
  (`Replication.CopyNamesMayCollideAcrossRows`). `total_files` counts copies, not
  distinct files.
- The evaluator finds an image's label by cutting the name at its last dot
  (`rsplit`). The materializer uses `splitext`. They agree on ordinary names
  (`Pipeline.LabelNamesAgree`). They differ for a name like `.png`
  (`Pipeline.LabelNamesDifferForDotFile`).

## Model

| member | source | states |
|---|---|---|
| `Strategy.Difficulty` | strategyrl.py:25-42 | with FP, FN ≥ 0 and confidence ≤ 1 the score is ≥ 0, and it is 0 exactly when FP = FN = 0 and confidence = 1 |
| `Strategy.DifficultyDefaults` | strategyrl.py:30-41 | the score is 2·FP + 3·FN + (1 − conf); a missing avg_conf counts as 1.0 (no uncertainty), a present 0 adds 1.0, and missing FP/FN count as 0 |
| `Strategy.DifficultyMonotone` | strategyrl.py:39-41 | more FP, more FN or lower confidence never lowers the score |
| `Strategy.Allocate` | strategyrl.py:44-51 | the weight is that of the first band in list order whose threshold is ≤ the score, and 1.0 when no band matches |
| `Strategy.FirstMatchExists` | strategyrl.py:48-51 | either no band matches or a first matching band exists, so the two cases above cover every score |
| `Strategy.GetWeightStrategy` | strategyrl.py:44-51 | the scan with early return yields exactly the first-match weight |
| `Strategy.DefaultWeight` | strategyrl.py:18-23 | with the script's bands: score ≥ 2.5 gives 3.0, 1.0 ≤ score < 2.5 gives 2.0, any lower score (negative ones too) gives 1.0 |
| `Strategy.DefaultWeightMonotone` | strategyrl.py:19-23 | with the default bands the weight never decreases as the score grows |
| `Strategy.HardSampleCount` | strategyrl.py:85 | the count is the number of positions whose weight is above 1; it is at most the row count, and 0 exactly when no weight exceeds 1 |
| `Strategy.HighWeightRatio` | strategyrl.py:84-86 | the ratio is the hard count over the row count, 0 for an empty table, and always in [0, 1] |
| `Strategy.Advise` | strategyrl.py:94-99 | the advice is "raise thresholds" exactly when ratio > 0.4, "lower" exactly when ratio < 0.05, "healthy" exactly when 0.05 ≤ ratio ≤ 0.4 |
| `Strategy.FirstMissing` | strategyrl.py:72-76 | reports nothing when every required column is present, otherwise the first absent one in order |
| `Strategy.AssignWeights` | strategyrl.py:78-81 | one weight row per input row, same filename, weight `DefaultWeight` of the row's score (so 1, 2 or 3, above 1 exactly when the row scores at least 1) |
| `Strategy.RunStrategy` | strategyrl.py:69-99 | a missing FP/FN/avg_conf column stops the run, and the column reported is the first absent one in the order FP, FN, avg_conf; otherwise there is one weight row per input row with the same filename and weight `DefaultWeight` of the row's score (so 1, 2 or 3, above 1 exactly when the score is ≥ 1), the ratio is `HighWeightRatio` of the weight column, and the advice matches it |
| `Replication.RoundHalfEven` | create_weighted_dataset.py:39 | the result is within 1/2 of the weight, and a tie goes to the even integer |
| `Replication.RoundHalfEvenUnique` | create_weighted_dataset.py:39 | those two properties determine the rounded value, so they specify Python's `round` |
| `Replication.RepeatTimes` | create_weighted_dataset.py:39-40 | repeat_times is at least 1 and at least round(weight), and equals one of them |
| `Replication.RepeatTimesExamples` | create_weighted_dataset.py:39-40 | 0.4→1, 2.4→2, 2.5→2, 3.5→4, 3.6→4, −1.0→1 |
| `Replication.RepeatTimesOfWholeWeight` | create_weighted_dataset.py:39-40 | a whole weight k ≥ 1 is copied exactly k times |
| `Replication.SplitExt` | create_weighted_dataset.py:44 | stem + extension is the name; the extension is empty or a dot followed by no dot and no slash |
| `Replication.SplitExtOfPlainName` | create_weighted_dataset.py:44 | a base name with a non-dot character before its extension splits into exactly that stem and extension |
| `Replication.SplitExtOfDotFile` | create_weighted_dataset.py:44 | a name whose only dot starts it, such as `.png`, has no extension |
| `Replication.SourceLabel` | create_weighted_dataset.py:44-45 | the source label name ends in `.txt`, and is the image name with its extension replaced by `.txt` |
| `Replication.CopySuffix` | create_weighted_dataset.py:53 | copy 0 has no suffix; copy i > 0 has `_copy` followed by decimal digits without a leading zero that read back as i |
| `Replication.ImageName` | create_weighted_dataset.py:53-55 | copy 0 keeps the image name; every copy keeps the image's extension and is longer than the image name by exactly its suffix |
| `Replication.ImageNameSplits` | create_weighted_dataset.py:44-55 | `splitext` of copy i's name gives the image's stem followed by the copy suffix, and the image's own extension: the suffix sits between stem and extension |
| `Replication.SplitWithSuffix` | create_weighted_dataset.py:44 | putting a suffix without dots or slashes between a stem and its extension moves the split point past the suffix and leaves the extension unchanged |
| `Replication.LabelName` | create_weighted_dataset.py:53-56 | every label copy name ends in `.txt`; copy 0 is the source label name; label copy i is image copy i with its extension replaced by `.txt` |
| `Replication.CopySuffixInjective` | create_weighted_dataset.py:53 | different copy indices give different suffixes |
| `Replication.CopyNamesDistinct` | create_weighted_dataset.py:51-56 | the image names of one row's copies are pairwise distinct, and so are its label names |
| `Replication.CopyNamesMayCollideAcrossRows` | create_weighted_dataset.py:53-55 | copy 1 of `stem.ext` and copy 0 of `stem_copy1.ext` have the same destination |
| `Replication.ImageCopies` | create_weighted_dataset.py:48-61 | a row whose image is missing copies nothing; otherwise it copies that image repeat_times times, to pairwise different names |
| `Replication.LabelCopies` | create_weighted_dataset.py:51-64 | a row copies its source label repeat_times times, to pairwise different names, when both the image and its label exist, and nothing otherwise |
| `Replication.CopyDestinations` | create_weighted_dataset.py:51-64 | copy k of a row writes the row's image to `ImageName(f, k)` and its source label to `LabelName(f, k)` |
| `Replication.PlanImages` | create_weighted_dataset.py:35-66 | the image copies of the whole table, row after row; each copies an existing source image |
| `Replication.PlanLabels` | create_weighted_dataset.py:35-66 | the label copies of the whole table, row after row; each copies an existing source label, and there are never more label copies than image copies |
| `Replication.Applied` | create_weighted_dataset.py:61-64 | copies are applied in order and overwrite: the last copy's destination holds its source |
| `Replication.AppliedValue` | create_weighted_dataset.py:61-64 | a destination holds the source of the last copy written to it |
| `Replication.PlanStep` | create_weighted_dataset.py:48-66 | a row whose image is missing adds no copies; otherwise it adds repeat_times image copies, and never more label copies than image copies |
| `Replication.AppliedKeys` | create_weighted_dataset.py:61-64 | after a run of copies the directory holds exactly their destination names |
| `Replication.AppliedSize` | create_weighted_dataset.py:61 | copies to pairwise distinct destinations leave one file per copy |
| `Replication.RowFileCount` | create_weighted_dataset.py:51-66 | a row with an existing image leaves exactly repeat_times image files; it leaves as many label files when its label exists, and none otherwise |
| `Replication.OutputTree.Reset` | create_weighted_dataset.py:19-24 | after clearing and recreating, both output directories are empty |
| `Replication.OutputTree.CopyImage` | create_weighted_dataset.py:61 | the destination image now comes from the source image; nothing else changes |
| `Replication.OutputTree.CopyLabel` | create_weighted_dataset.py:63-64 | the destination label now comes from the source label; nothing else changes |
| `Replication.CopyOnce` | create_weighted_dataset.py:51-66 | one pass of the copy loop extends the output images by image copy i and, when the source label exists, the output labels by label copy i; when it does not, the labels stay as they were |
| `Replication.CopyRow` | create_weighted_dataset.py:36-66 | one row's copies are applied in order, and total_files grows by the number of image copies |
| `Replication.CreateWeightedDataset` | create_weighted_dataset.py:11-66 | a missing weights file or image directory leaves the output untouched; otherwise the output is exactly the planned copies, independent of its earlier contents, and total_files counts the image copies |
| `Text.LastIndexOf` | apply/state.py:28 | the index of the last occurrence of the character, or −1 when it does not occur |
| `Text.NatToString` | create_weighted_dataset.py:53 | the decimal form of the copy index is a non-empty digit string with no leading zero, and starts with `0` only for 0 |
| `Text.DigitsRoundTrip` | create_weighted_dataset.py:53 | reading the decimal form back gives the number |
| `Text.NatToStringInjective` | create_weighted_dataset.py:53 | different copy indices render differently |
| `Text.Lower` | apply/state.py:17 | same length; every upper-case ASCII letter becomes the same letter in lower case, and every other character is unchanged |
| `Evaluation.ImageNameExamples` | apply/state.py:17-18 | `.JPG`, `.Jpeg` and `.png` names pass the filter; `notes.txt` and `jpg` do not |
| `Evaluation.IsImageName` | apply/state.py:17 | a name passes when its lower-cased form ends in `.jpg`, `.png` or `.jpeg`, so an accepted name has at least four characters |
| `Evaluation.LabelNameOf` | apply/state.py:28 | the label name ends in `.txt`; it is the part before the last dot plus `.txt`, or the whole name plus `.txt` when there is no dot |
| `Evaluation.Mean` | apply/state.py:26 | the mean times the count is the sum, and the mean is 0 when there are no predictions |
| `Evaluation.SumOfUnitBounds` | apply/state.py:26 | a sum of confidences in [0, 1] lies between 0 and the number of boxes |
| `Evaluation.MeanOfUnitBounds` | apply/state.py:25-26 | confidences in [0, 1] give an avg_conf in [0, 1] |
| `Evaluation.MatchCounts` | apply/state.py:32-34 | TP + FN = gt, TP + FP = pred, and FP or FN is 0 |
| `Evaluation.MatchCountsUnique` | apply/state.py:32-34 | those identities determine TP, FP and FN, so they are the min/max formulas |
| `Evaluation.GroundTruthLocal` | apply/state.py:28-30 | an image's ground truth depends only on the entry for its own label name: two label directories that agree on that one name (both lack it, or both hold it with the same line count) give the same ground truth, whatever else they hold |
| `Evaluation.DeriveRow` | apply/state.py:23-36 | the row carries the image name, pred = number of boxes, gt = label line count or 0, consistent counts and the mean confidence |
| `Evaluation.AcceptedNames` | apply/state.py:16-18 | a name is kept exactly when it is listed and its lower-cased form ends in `.jpg`, `.png` or `.jpeg` |
| `Evaluation.StateTable` | apply/state.py:16-36 | no more rows than listed names; every row is for a listed image name and obeys the count identities |
| `Evaluation.StateTableRows` | apply/state.py:16-36 | exactly one row per accepted image, in listing order, each derived from that image |
| `Evaluation.StateTableConsistent` | apply/state.py:25-34 | every row obeys the count identities; with confidences in [0, 1] every avg_conf is in [0, 1] |
| `Evaluation.CollectStats` | apply/state.py:16-36 | the loop with `continue` writes exactly the derived table: one consistent row per accepted, listed image |
| `Report.TotalSplit` | report/state_raw.py:6-10 | a column total is additive over a split of the table |
| `Report.Total` | report/state_raw.py:6-10 | a column total is at least every single cell, and 0 exactly when every cell is 0 |
| `Report.GuardedRatio` | report/state_raw.py:13-16 | the quotient is 0 for a zero denominator; otherwise quotient × denominator = numerator, and a numerator ≤ denominator gives a value in [0, 1] |
| `Report.Summarize` | report/state_raw.py:5-16 | the totals are the column sums and the image count; the mean confidence is absent for an empty table and the mean of the per-image averages otherwise; FN and FP per image, FN over GT and FP over predictions are each `GuardedRatio` of exactly that numerator and denominator |
| `Report.TotalsConsistent` | report/state_raw.py:6-10 | over consistent rows, total_TP + total_FN = total_GT and total_TP + total_FP = total_pred |
| `Report.RatesBounded` | report/state_raw.py:15-16 | over consistent rows, fn_rate and fp_rate lie in [0, 1] |
| `Report.MeanConfidenceBounded` | report/state_raw.py:11 | with per-image averages in [0, 1], the table's avg_conf lies in [0, 1] |
| `Report.SummaryExample` | report/state_raw.py:5-16 | rows (gt 2, pred 1, FN 1) and (gt 0, pred 1, FP 1) give totals 2/2/1/1/1, both rates 0.5, per-image rates 0.5, avg_conf 0.65 |
| `Pipeline.DerivedRowScoreNonNegative` | strategyrl.py:32-41 | an evaluator row with confidences in [0, 1] gets a non-negative score |
| `Pipeline.PerfectImageCopiedOnce` | strategyrl.py:78-81 | an image with at least one box, whose box count matches its labels and whose confidences are all 1, scores 0, gets weight 1 and one copy |
| `Pipeline.EmptyImageCopiedTwice` | strategyrl.py:31-33 | an image without detections has avg_conf 0, scores at least 1, gets weight at least 2 and is copied at least twice; without ground truth it scores exactly 1, gets weight 2 and is copied twice |
| `Pipeline.WeightsReplicateExactly` | create_weighted_dataset.py:39-40 | a table written by the evaluator has every required column, and each weight assigned to it is copied exactly that many times |
| `Pipeline.LabelNamesAgree` | create_weighted_dataset.py:44-45 | for an ordinary image name the evaluator and the materializer use the same label name |
| `Pipeline.GroundTruthOfCopiedLabel` | apply/state.py:28-30 | for an ordinary image name, the evaluator's ground truth is the line count of the label file the materializer copies for that image, and 0 when the materializer finds no such label |
| `Pipeline.LabelNamesDifferForDotFile` | create_weighted_dataset.py:44-45 | for a name like `.png` the evaluator reads `.txt` but the materializer copies `.png.txt` |

## Left out

- Detector inference and training (`model.predict`, `model.train`, `apply/apply.py`, `model_training.py`): library calls with no visible logic. The confidences per image are a parameter.
- CSV and pandas I/O: reading and writing `state.csv`, `weights.csv` and `error_summary.csv`, `error_overview.txt`, and all console output. Tables are sequences of datatype rows.
- `strategyrl.py` stops when `state.csv` is missing or cannot be parsed. Those are I/O failures and are not modelled.
- When the stats table lacks a `filename` column, `strategyrl.py` writes every column to `weights.csv`. The model always writes `(filename, weight)` rows.
- `strategyrl.py` prints the mean difficulty; that is display only.
- File-system effects are abstract: `os.path.join` is not modelled, and names are relative to their directory. `copy2` records which source file a destination came from, not file contents or metadata. A failure partway through the copy loop is not modelled.
- `Replication.SplitExt` follows POSIX `splitext`. Windows also treats `\` as a separator there.
- `Text.Lower` lower-cases ASCII letters only. Python's `str.lower` covers all of Unicode.
- `os.listdir` order is unspecified. The listing is an input sequence, and the rows follow its order.
- A label file is represented by its line count. Reading its text is not modelled.
- IEEE-754 floating point: NaN cells, `round` of NaN or infinity, and `str()` formatting. Arithmetic is exact over `real`. The mean confidence of an empty table, NaN in pandas, is `None`.
- The tqdm progress bar.
