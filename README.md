# ObjectMD pipeline core in Dafny

ObjectMD detects when a person moves a box in video. Its pipeline has these stages:

- **Label reconciliation** keeps the label entries whose video file exists. It reports the names of the others.
- **Frame sampling** writes every `interval`-th decoded frame of each labelled video as `frame_NNNN.jpg`.
- **Pose estimation** keeps the two wrist landmarks of each frame, and only when they are visible enough.
- **Object detection** keeps the confident "box"/"package" detections, tagged with their frame number.
- **Movement labelling** builds a map from video stem to its action window, at 5 frames per second. It then rewrites the `is_moving` column of the per-video feature files.
- **Feature fusion** walks the frames of one video. It merges the pose and box streams into one row per frame: wrist positions, the normalised box centre, box velocity, hand–box and wrist–wrist distances, and an `is_moving` label from an inclusive window at 10 frames per second.

There is one module per source file: `Common`, `Dataset`, `Frames`, `PoseEstimation`, `ObjectDetection`, `IsMoving` and `FeatureExtraction`.

- A source loop that builds a result step by step is a `method` with a loop. Its loop invariants tie the partial result to a specification function on the visited prefix.
- What the source promises is proved about those functions as lemmas.
- The source has no objects with mutable fields. The dictionaries and lists its loops fill are local values, so the model has no classes.
- External inputs become parameters:
  - the decoder, YOLO and MediaPipe become, per video, an "opened" flag, a frame rate, and a sequence of frames, candidate lists or landmark lists;
  - the JSON and CSV files become sequences of records;
  - the directory walks become sequences in walk order;
  - `np.linalg.norm` becomes the parameter `norm`, applied to the difference vector.
- Python's `int()` of a float truncates toward zero, and so does `Common.Trunc`. The action windows use this truncation. This differs from the floor only for negative seconds.

## Model

| member | source | states |
|---|---|---|
| Common.Trunc | ObjectMD/feature_extraction.py:42-43 | `int()` of a float truncates toward zero: for r ≥ 0 the result is the floor, for r < 0 the ceiling |
| Common.LastIndexOfSpec | ObjectMD/is_moving.py:17 | `rfind` gives a position holding the character with none after it, or -1 when there is none |
| Common.NameShape | ObjectMD/is_moving.py:17 | `Path.name` is '/'-free, never ".", and no longer than the path (empty and "." components are dropped) |
| Common.NameAndStemShape | ObjectMD/is_moving.py:17 | `Path.stem` is '/'-free and is either the whole name or a non-empty prefix of it ending just before its last '.', that '.' being neither the name's first nor its last character |
| Common.TrailingSeparatorIgnored | ObjectMD/is_moving.py:17 | a trailing '/' or "/." does not change the name, as `PurePath` normalises it away |
| Common.StemOfBareName | ObjectMD/feature_extraction.py:113 | `Path("base.ext").stem == "base"` and its name is the whole string |
| Common.StemOfJoinedName | ObjectMD/feature_extraction.py:113 | `Path("dir/base.ext").stem == "base"` and its name is `base.ext` |
| Common.StemOfPlainName | ObjectMD/frames.py:59 | a '/'-free name with no '.' after its first character is its own name and stem, except ".", whose name and stem are "" |
| FeatureExtraction.DistanceSymmetric | ObjectMD/feature_extraction.py:25-28 | for a sign-independent norm, distance(p, q) == distance(q, p), including whether it is missing |
| FeatureExtraction.Velocity | ObjectMD/feature_extraction.py:30-31 | the velocity guard adds nothing: velocity equals the distance of current and previous centre |
| FeatureExtraction.AverageHandBox | ObjectMD/feature_extraction.py:87-94 | both sides known: their mean, which lies between them; one side known: that side; neither: missing |
| FeatureExtraction.FeatureTable | ObjectMD/feature_extraction.py:47-55 | exactly max(len(pose), len(box)) rows; row i has the video name, `frame_index` i, `timestamp` i/10, and `is_moving` 1 iff start ≤ i ≤ end of the `int(second*10)` window, 0 otherwise |
| FeatureExtraction.ExtractFeatures | ObjectMD/feature_extraction.py:33-106 | the fusion loop, carrying `prev_box_center` between iterations, returns exactly the specified table |
| FeatureExtraction.MovingMeansOverlap | ObjectMD/feature_extraction.py:42-54 | for non-negative seconds, row i is moving iff its tenth of a second [i/10, (i+1)/10) overlaps [start, end]: start < (i+1)/10 and i/10 ≤ end |
| FeatureExtraction.BeyondPoseStream | ObjectMD/feature_extraction.py:58-95 | an index beyond the pose stream has `[None, None]` wrists, no wrist distance and no hand–box distance |
| FeatureExtraction.BoxCenterRule | ObjectMD/feature_extraction.py:66-81 | the centre is present iff the best box is accepted and has a centre, and both coordinates are present together; it is then (cx/width, cy/height) with the 1280×720 default |
| FeatureExtraction.WristColumns | ObjectMD/feature_extraction.py:58-95 | inside the pose stream a row holds the frame's left and right wrist coordinates unchanged; its wrist distance is missing exactly when either wrist has a null coordinate, and is otherwise the norm of the wrists' difference |
| FeatureExtraction.HandBoxDistanceCases | ObjectMD/feature_extraction.py:84-94 | no box centre means no velocity and no hand–box distance; otherwise the average follows the four cases of the per-wrist distances to the centre |
| FeatureExtraction.VelocityFromPreviousRow | ObjectMD/feature_extraction.py:84-103 | velocity is present iff i > 0 and both this row and the previous row have a box centre; it is then the norm of the difference of the two rows' centres |
| FeatureExtraction.ExtractAllFeatures | ObjectMD/feature_extraction.py:108-115 | the per-entry tables, each named after the stem of the entry's video, appended in label order |
| FeatureExtraction.AllFeaturesShape | ObjectMD/feature_extraction.py:112-117 | the combined table has as many rows as all videos' longer streams together, and every row names the stem of some entry's video |
| FeatureExtraction.EmptyLabelsFailConcat | ObjectMD/feature_extraction.py:117 | with no entries the as-written concatenation fails, while the appended table is empty |
| IsMoving.BuildVideoLabelDict | ObjectMD/is_moving.py:14-24 | the dictionary loop returns exactly the map obtained by visiting the entries in order |
| IsMoving.LabelMapDomain | ObjectMD/is_moving.py:17-23 | a stem is a key iff some entry with that stem has both seconds present |
| IsMoving.LabelMapLastWins | ObjectMD/is_moving.py:16-23 | the window bound to a stem is that of the last complete entry with that stem |
| IsMoving.RemoveAllAbsent | ObjectMD/is_moving.py:28 | removing a pattern that does not occur leaves the string unchanged |
| IsMoving.FeatureFileNameRoundTrip | ObjectMD/is_moving.py:27-28 | the file `features_<v>.csv` yields video name v when v has no '/' and no `features_` in it |
| IsMoving.Relabelled | ObjectMD/is_moving.py:34 | same number of rows; each row keeps its frame and other columns and gets `is_moving` from the window rule |
| IsMoving.LabelFeaturesWithMovement | ObjectMD/is_moving.py:26-36 | the file loop returns the files as written back and the skipped names, exactly as specified |
| IsMoving.LabelledFilesAt | ObjectMD/is_moving.py:27-35 | one output file per input file, and file k of the output is file k after the rule |
| IsMoving.LabelledRowRule | ObjectMD/is_moving.py:17-34 | over both stages: a row of a file whose video has a complete label is moving iff int(start·5) ≤ frame ≤ int(end·5) for the last such label, with its other columns kept |
| Dataset.ValidLabels | ObjectMD/dataset.py:30-33 | the kept entries never outnumber the input |
| Dataset.MissingVideos | ObjectMD/dataset.py:30-35 | the missing names never outnumber the input |
| Dataset.FilterValidLabels | ObjectMD/dataset.py:26-37 | the partition loop returns exactly the kept entries and the missing names |
| Dataset.PartitionSizes | ObjectMD/dataset.py:30-35 | every entry lands in exactly one output: len(valid) + len(missing) == len(labels) |
| Dataset.ValidLabelsCounts | ObjectMD/dataset.py:31-33 | each entry is kept, unmodified, as often as it occurs when its video name is in the list (exact match), and never otherwise |
| Dataset.MissingVideosCounts | ObjectMD/dataset.py:34-35 | a name is reported missing once per entry with that video when it is not in the list, and never otherwise |
| Dataset.ValidLabelsStable | ObjectMD/dataset.py:30-33 | filtering keeps relative order: filter(a ++ b) == filter(a) ++ filter(b) |
| Dataset.MissingVideosStable | ObjectMD/dataset.py:34-35 | the missing names keep the input order in the same sense |
| Frames.Interval | ObjectMD/frames.py:21-22 | the interval is ≥ 1, so the modulo is defined; it is 1 when video_fps ≤ fps and otherwise the whole part of video_fps/fps |
| Frames.Decimal | ObjectMD/frames.py:35 | the decimal digits of a number: at least one, all digits, no leading zero |
| Frames.ZeroPad | ObjectMD/frames.py:35 | `{:04d}` padding: length max(len, 4), the digits at the end, '0' before them |
| Frames.DecimalRoundTrip | ObjectMD/frames.py:35 | reading the digits back gives the number |
| Frames.LeadingZerosValue | ObjectMD/frames.py:35 | leading zeros do not change the value |
| Frames.FrameNameRoundTrip | ObjectMD/frames.py:35 | `frame_{i:04d}.jpg` parses back to i |
| Frames.FrameNameInjective | ObjectMD/frames.py:35-38 | distinct saved indices give distinct file names |
| Frames.FrameNameLength | ObjectMD/frames.py:35 | names have at least four digits, and exactly four below 10000 |
| Frames.ExtractFramesFromVideo | ObjectMD/frames.py:15-43 | a video that does not open writes nothing; otherwise the sampling loop writes exactly the specified frames |
| Frames.SavedCount | ObjectMD/frames.py:26-43 | from n decoded frames, ceil(n / interval) are written |
| Frames.SavedPrefix | ObjectMD/frames.py:26-40 | images are written as frames are decoded: sampling any prefix of the frames writes a prefix of the images |
| Frames.FrameKept | ObjectMD/frames.py:34-38 | frame k with k % interval == 0 is written as image number k / interval, under that number's name |
| Frames.SavedFrameAt | ObjectMD/frames.py:34-38 | image j is frame j·interval, a multiple of the interval, named with the consecutive number j |
| Frames.EveryFrameWhenSlow | ObjectMD/frames.py:22-38 | when video_fps ≤ fps every frame is written, in order, frame k as number k |
| Frames.ExtractAllFrames | ObjectMD/frames.py:50-63 | one outcome per video file, each as specified by the skip test, the open test and the stem folder |
| Frames.OutcomeRule | ObjectMD/frames.py:54-61 | a file is skipped iff no entry's `video` equals its bare file name; a labelled file is sampled at 5 fps into the folder of its stem |
| PoseEstimation.HandKeypoints | ObjectMD/pose_estimation.py:19-34 | the confidence list always has two slots |
| PoseEstimation.ExtractHandKeypointsFromFrame | ObjectMD/pose_estimation.py:19-34 | the loop over landmarks 15 and 16, which mutates the dictionary, returns exactly the keypoints defined side by side |
| PoseEstimation.NoLandmarksNoWrists | ObjectMD/pose_estimation.py:21-27 | without landmarks: both wrists `[None, None]`, confidence `[0.0, 0.0]` |
| PoseEstimation.WristSidesAreLocal | ObjectMD/pose_estimation.py:29-33 | the left wrist and slot 0 depend only on landmark 15; the right wrist and slot 1 only on landmark 16 |
| PoseEstimation.WristVisibilityRule | ObjectMD/pose_estimation.py:31-33 | a side is filled with its landmark's x, y and visibility iff visibility > 0.5; at 0.5 or below it stays empty with confidence 0.0 |
| PoseEstimation.ProcessVideo | ObjectMD/pose_estimation.py:36-59 | one record per decoded frame; the i-th has `frame_index` i and frame i's keypoints; a video that does not open gives none |
| ObjectDetection.FrameDetections | ObjectMD/object_detection.py:40-55 | a frame contributes at most one record per candidate |
| ObjectDetection.DetectObjectsInVideo | ObjectMD/object_detection.py:19-64 | the nested frame/candidate loop returns exactly the specified flat list, or nothing for a video that does not open |
| ObjectDetection.FrameDetectionSource | ObjectMD/object_detection.py:40-55 | every record of a frame is built from an accepted candidate of that frame |
| ObjectDetection.DetectionSource | ObjectMD/object_detection.py:40-64 | soundness: every record's frame is a frame of the video, and the record is built from an accepted candidate of that frame (label "box"/"package" after lower-casing, confidence not below 0.5) |
| ObjectDetection.DetectionPresent | ObjectMD/object_detection.py:40-64 | completeness: every accepted candidate of frame f appears in the output as a record of frame f |
| ObjectDetection.FrameDetectionsFrame | ObjectMD/object_detection.py:50-55 | every record of a frame carries that frame's number |
| ObjectDetection.FrameDetectionsConcat | ObjectMD/object_detection.py:40-55 | within a frame, records follow the candidates' order |
| ObjectDetection.FramesNonDecreasing | ObjectMD/object_detection.py:51-64 | `frame` values never decrease along the output |

## Left out

- All video, JSON, CSV and pandas I/O, directory walks, `mkdir`, progress bars and messages. Each input stream is a sequence in the order the source reads it. Printed messages appear only where they carry data (the skipped names of `IsMoving.LabelFeaturesWithMovement`).
- The YOLO and MediaPipe models and the decoder. They are foreign code, so their outputs are inputs here. The detector's class id and names table are folded into each candidate's class name.
- `np.linalg.norm` and `np.mean` on IEEE-754 floats. Coordinates are `real`, the norm is the parameter `norm`, and no result is claimed to be bit-exact.
- FeatureExtraction.ExtractFeatures: requires both `video_second` values (the source raises without them) and a non-zero resolution (the source divides by it). The pose records carry both wrist keys, since the source would fail on a missing one.
- FeatureExtraction.ExtractFeatures: `load_json` turning a missing file into `{}` is not modelled beyond the streams being possibly empty. The `bbox` of the best box is read but never used, and is left out.
- IsMoving.LabelFeaturesWithMovement: feature files are identified by their stem. The `features_*.csv` glob, the reading of the `frame` column and the rewrite in place are given, not modelled. Files nobody writes back are returned unchanged.
- IsMoving.LabelMapDomain: an entry whose `action_start` or `action_end` key is present but holds null is modelled as missing. The source would fail on `.get` of null.
- FeatureExtraction.BoxCenterRule: a `best_box` whose `confidence` key is present but null is treated like a missing key (confidence 0, so no centre). The source raises a TypeError when it compares that null with 0.5. A `center` whose components are null also raises in the source, and the model's centre type cannot hold one. `AcceptedCenter` and `ConfidenceOrZero` carry this simplification.
- Common.NameShape: paths are POSIX paths. `FileName` drops empty and "." components as `PurePath` does. Windows drives and '\\' separators are not modelled. The lemma bounds the name by the path's length; it does not state that the name is one of the path's '/'-separated components.
- PoseEstimation.ExtractHandKeypointsFromFrame: requires at least 17 landmarks when landmarks are present, as the pose model always reports. The protobuf truthiness of the landmark list is modelled as presence.
- PoseEstimation: `main`, which skips videos whose output file already exists, is not modelled. It depends only on the file system.
- ObjectDetection.DetectionSource: the label test lower-cases ASCII letters only (`LowerAscii`). Python's Unicode `lower()` also maps some non-ASCII letters to ASCII ones, for example the Kelvin sign to 'k', so such a label is rejected here but accepted by the source. The same holds for ObjectDetection.DetectionPresent.
- Frames.Interval: requires the target rate to be positive, as its only caller's constant 5 is.
- Frames.ExtractAllFrames: the output folder is a path string. Two videos with the same stem in different folders share it, as in the source.
- Cross-stage mismatches are kept as written and not reconciled:
  - the rates are 10 in fusion and 5 in labelling and sampling;
  - detection writes a flat list, while fusion expects per-frame `best_box` records;
  - labelling reads a `frame` column, while fusion writes `frame_index`.
- `train.py`, `Visualization.py`, `resolution.py`, `sample_frames.py` and `test.py` are not part of this model. They are ML training, interactive display, metadata reading, random sampling and a diagnostic script.

## Findings

| source | as written | input that shows it | evidently intended | confidence | as-written member | corrected member |
|---|---|---|---|---|---|---|
| ObjectMD/feature_extraction.py:117 | `pd.concat(all_dfs)` raises when the label list is empty | a labels file holding `[]` | an empty features table | high, not executed | FeatureExtraction.EmptyLabelsFailConcat | FeatureExtraction.ExtractAllFeatures |
