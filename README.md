# OMR grading: mark detection, scoring and match filtering

This project models the two decision layers of an optical-mark-recognition grader.
The photograph of a bubble sheet is aligned to a template, each bubble's ink is
measured, one answer per question is detected, and the answers are scored against
an answer key. The OpenCV calls underneath these layers are not modelled; the
model takes their results as inputs.

- `Ink` (`ink.dfy`) gives the ink evidence of one bubble. It counts the foreground
  pixels of the thresholded sheet that lie inside a filled disc. This stands in
  for the circle mask, `bitwise_and` and `countNonZero`. The module proves that
  a blank image shows no ink. It also proves that a disc of radius `r` can never
  hold more than `(2r+1)^2` pixels.
- `Grader` (`grader.dfy`) models `OMRGrader`:
  - `GradeSheet` runs the nested question/option loops of `grade_sheet`. Bubble
    centres are `(start_x + opt*gap_x, start_y + q*gap_y)`. It produces one
    record per bubble, question-major, and one answer per question.
  - `IsDecision` states the per-question rule. With no count above 300 the
    question is unanswered. Otherwise the answer is the lowest-numbered option that
    holds the largest count. `DetectAnswer` computes it with `max` and
    `list.index`, and `DecisionUnique` shows the rule admits only one answer.
  - `CalculateScore` runs the `zip` loop of `calculate_score`. It returns the
    number of matching positions and one detail record per zipped pair.
- `Aligner` (`aligner.dfy`) models the decision part of `ImageAligner.align_image`:
  - the guard that fails when a descriptor set is missing;
  - the unpacking of each two-nearest-neighbour row into `(m, n)`;
  - Lowe's ratio test `m.distance < match_ratio * n.distance`;
  - the guard that needs at least 4 surviving matches;
  - the query/train point lists that go into the homography estimation.
- `Wrappers` (`wrappers.dfy`) provides `Option` for Python's `None` and `Result`
  for raised exceptions.

Each raised exception in the source becomes a `Failure` value:

- `max()` of an empty option list becomes `EmptyOptionCounts`.
- A missing descriptor set becomes `FeaturesNotDetected`.
- A kNN row that does not unpack into two matches becomes `PairUnpackFailed`.
- Fewer than four good matches becomes `NotEnoughMatches`.

Three behaviours of the code are easy to miss:

- The scorer does not reject answer lists and keys of different lengths. `zip`
  stops at the shorter list, and so does the model.
- The mark threshold is the hard-coded constant 300, not a configuration value.
- The feature guard tests whether a descriptor set is `None`, not whether the
  keypoint list is empty.

The repository's test `test_grade_sheet_perfect_match` (tests/test_grader.py:15-26)
uses a grid of radius 5 and expects answer 0. `SmallBubblesNeverAnswered` proves
that with radius 8 or less no question is ever answered, whatever the image: at
most 289 pixels fit in such a bubble, and the threshold is 300. So that expectation
holds for no thresholded image.

## Model

| member | source | states |
|---|---|---|
| `Ink.BlankImageHasNoInk` | src/grader.py:64-72 | an image with no foreground pixel gives every bubble a count of 0 |
| `Ink.InkCountBound` | src/grader.py:64-72 | the count of a bubble of radius r is at most (2r+1)^2, whatever the image and centre |
| `Grader.GradeSheet` | src/grader.py:34-99 | fails exactly when there is a question but no option (max of an empty list); otherwise returns exactly num_questions answers, answer q satisfying the decision rule on question q's counts and being None or an index below options_per_question, and num_questions*options_per_question records, record k holding q = k / opts, opt = k % opts, centre (start_x + opt*gap_x, start_y + q*gap_y) and that bubble's count |
| `Grader.MeasureQuestion` | src/grader.py:55-81 | the counts of question q have one entry per option, entry opt being the ink inside the bubble centred at (start_x + opt*gap_x, start_y + q*gap_y); the records of those bubbles are appended after the earlier ones, in option order |
| `Grader.SheetRecordsIndexed` | src/grader.py:54-81 | the records appended by the nested loops are n*opts long and record k belongs to question k / opts, option k % opts |
| `Grader.SheetRecordsAt` | src/grader.py:54-81 | a single record k below n*opts is the bubble (k / opts, k % opts), at its grid centre with its count |
| `Grader.Max` | src/grader.py:87 | the maximum of a non-empty count list is one of its elements and no element exceeds it |
| `Grader.FirstIndex` | src/grader.py:93 | `list.index` returns a position holding the value, and no earlier position holds it |
| `Grader.DetectAnswer` | src/grader.py:87-95 | no answer exactly when every count is at most 300; a chosen answer is an option index whose count exceeds 300, is at least every other count, and is strictly greater than every count before it (first index on ties) |
| `Grader.DecisionUnique` | src/grader.py:87-95 | the decision rule determines the answer: two answers that both satisfy it are equal |
| `Grader.BlankSheetUnanswered` | src/grader.py:87-95 | on a blank thresholded sheet the only answer the rule allows for any question is None |
| `Grader.SmallBubblesNeverAnswered` | src/grader.py:92-95 | with bubble radius 8 or less the rule forces None for every question, because no count can exceed 300 |
| `Grader.ThresholdExamples` | src/grader.py:92-95 | counts [300,0,0,0] give no answer and [301,0,0,0] give answer 0: the threshold is strict |
| `Grader.TieExample` | src/grader.py:93 | counts [500,500,0,0] give answer 0: a tie goes to the first option |
| `Grader.CorrectUpTo` | src/grader.py:106-109 | the running number of matches over the first n pairs never exceeds n |
| `Grader.Score` | src/grader.py:101-118 | the score is at most the length of the answer list and of the key |
| `Grader.CorrectUpToCounts` | src/grader.py:106-109 | the running score equals the number of positions whose answer equals the key entry |
| `Grader.FullScoreIff` | src/grader.py:106-109 | the score over n pairs is n exactly when every answer equals its key entry |
| `Grader.ZeroScoreIff` | src/grader.py:106-109 | the score is 0 exactly when no answer equals its key entry (so an all-None sheet scores 0) |
| `Grader.ScoreExamples` | src/grader.py:101-118 | [0, None, 2] against [0, 1, 2] scores 2; [0,1,0,2,3] against the same key scores 5 |
| `Grader.CalculateScore` | src/grader.py:101-118 | the score equals the number of matching zipped positions and is at most min(len answers, len key); one detail per zipped index i with question i+1, both answers and is_correct true exactly when they are equal (None never equals a key), and the detail entries marked correct number exactly the score |
| `Aligner.GoodMatches` | src/aligner.py:38-41 | the kept matches are no more than the kNN rows, and each is the nearest neighbour of some row |
| `Aligner.KeptIndices` | src/aligner.py:38-41 | the kept row positions are ascending, in range, and a row is among them exactly when its pair passes the ratio test |
| `Aligner.GoodMatchesAreKeptNeighbours` | src/aligner.py:38-41 | good match j is the nearest neighbour of the j-th row that passes the ratio test: sound, complete and in row order |
| `Aligner.GoodMatchesSubsequence` | src/aligner.py:38-41 | the good matches form an order-preserving subsequence of the rows' nearest neighbours |
| `Aligner.RatioMonotone` | src/aligner.py:40 | with a non-negative distance, a pair that passes a ratio passes every larger ratio |
| `Aligner.DefaultRatioBoundary` | src/aligner.py:40 | with the constructor's default match_ratio 0.75 the ratio test is strict: distances 74 and 100 pass, 75 and 100 do not |
| `Aligner.StricterRatioKeepsSubsequence` | src/aligner.py:40-41 | a smaller ratio keeps only rows that a larger one keeps, and its matches are a subsequence of the larger ratio's, so no more of them |
| `Aligner.AlignImage` | src/aligner.py:29-50 | fails with FeaturesNotDetected whenever a descriptor set is missing, before the matches are looked at; fails when a row does not unpack into a pair; fails with NotEnoughMatches exactly when fewer than 4 matches pass the ratio test; otherwise returns the ratio-test matches with src_pts[i] the query keypoint and dst_pts[i] the train keypoint of match i, both lists as long as the matches |

## Left out

- `preprocess` (src/grader.py:14-32), i.e. `cvtColor` and Gaussian `adaptiveThreshold`, is not modelled. It is floating-point image processing inside OpenCV. `GradeSheet` takes the thresholded image as input and does not return it again.
- Ink counting uses the disc `(x-cx)^2 + (y-cy)^2 <= r^2`. OpenCV's circle rasterisation can differ from it at the rim. Pixel values other than 0 count as ink, as in `countNonZero`.
- ORB detection, `knnMatch`, `findHomography` with RANSAC and `warpPerspective` (src/aligner.py:11-13, 22-27, 35, 53-59) are foreign algorithms over floats. Keypoints, descriptor presence and the kNN rows are inputs. `AlignImage` returns the point lists handed to the homography estimation, not the homography or the warped image. The identity-alignment round trip therefore cannot be stated.
- `n_features` is only passed to ORB, so it does not appear.
- Floating point: `match_ratio * n.distance` is computed on reals, without float64 rounding. Keypoint coordinates are reals; the `float32` conversion and reshape of the point arrays are not modelled.
- Integer widths: grid coordinates are unbounded integers. OpenCV's limits on coordinate range are not modelled.
- Configuration types: the question count, option count and radius are natural numbers. Python's `range` of a negative count, and OpenCV's assertion on a negative radius, are therefore not modelled.
- `IndicesIn`, the requirement on `AlignImage`, is what `knnMatch` guarantees: every reported index names an existing keypoint. The model does not include the `IndexError` that an out-of-range index would raise.
- Logging, main.py (argument parsing, configuration loading, image writing, percentage and console table), src/visualizer.py, src/utils.py and scripts/generate_mock_data.py are I/O, presentation or fixture generation. They are not part of this model.
