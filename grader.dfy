/**
 * The OMR grader: the bubble grid, the per-bubble ink evidence, the per-question
 * decision (largest count, strict threshold, first index on ties) and the score
 * against the answer key.
 */
module Grader {
  import opened Wrappers
  import opened Ink

  /** The hard-coded mark threshold: a bubble counts as filled only with MORE ink pixels than this. */
  const MarkThreshold: nat := 300

  /** The `roi` configuration: grid origin, spacing and bubble radius (OpenCV rejects a negative radius). */
  datatype Roi = Roi(startX: int, startY: int, gapX: int, gapY: int, radius: nat)

  /** The `exam` configuration. */
  datatype ExamConfig = ExamConfig(numQuestions: nat, optionsPerQuestion: nat, answerKey: seq<int>)

  /** What an OMRGrader is built from; the `processing` block only feeds the opaque preprocessing step. */
  datatype GraderConfig = GraderConfig(roi: Roi, exam: ExamConfig)

  /** One entry of `results`: the bubble examined and the ink it showed. */
  datatype BubbleRecord = BubbleRecord(q: nat, opt: nat, x: int, y: int, pixels: nat)

  /** `max()` of an empty list of option counts raises. */
  datatype GradeError = EmptyOptionCounts

  /** What grade_sheet returns besides the thresholded image it was given. */
  datatype SheetGrading = SheetGrading(answers: seq<Option<nat>>, results: seq<BubbleRecord>)

  /** One entry of `grading_details`; `question` is 1-based. */
  datatype GradingDetail = GradingDetail(question: nat, userAns: Option<int>, correctAns: int, isCorrect: bool)

  // ---------------------------------------------------------------------------
  // The bubble grid
  // ---------------------------------------------------------------------------

  function BubbleX(roi: Roi, opt: nat): int { roi.startX + opt * roi.gapX }

  function BubbleY(roi: Roi, q: nat): int { roi.startY + q * roi.gapY }

  /** The ink evidence of bubble (q, opt) in the thresholded image. */
  function BubbleInk(roi: Roi, thresh: BinaryImage, q: nat, opt: nat): nat
  {
    InkCount(thresh, BubbleX(roi, opt), BubbleY(roi, q), roi.radius)
  }

  /** The record grade_sheet keeps for bubble (q, opt). */
  function Bubble(roi: Roi, thresh: BinaryImage, q: nat, opt: nat): BubbleRecord
  {
    BubbleRecord(q, opt, BubbleX(roi, opt), BubbleY(roi, q), BubbleInk(roi, thresh, q, opt))
  }

  /** The counts of the first m options of question q. */
  function QuestionCounts(roi: Roi, thresh: BinaryImage, q: nat, m: nat): seq<nat>
  {
    seq(m, opt requires 0 <= opt => BubbleInk(roi, thresh, q, opt))
  }

  /** The records of the first m options of question q. */
  function QuestionRecords(roi: Roi, thresh: BinaryImage, q: nat, m: nat): seq<BubbleRecord>
  {
    seq(m, opt requires 0 <= opt => Bubble(roi, thresh, q, opt))
  }

  lemma QuestionStep(roi: Roi, thresh: BinaryImage, q: nat, m: nat, before: seq<BubbleRecord>)
    ensures QuestionCounts(roi, thresh, q, m + 1) == QuestionCounts(roi, thresh, q, m) + [BubbleInk(roi, thresh, q, m)]
    ensures before + QuestionRecords(roi, thresh, q, m + 1) == before + QuestionRecords(roi, thresh, q, m) + [Bubble(roi, thresh, q, m)]
  {
    assert QuestionRecords(roi, thresh, q, m + 1) == QuestionRecords(roi, thresh, q, m) + [Bubble(roi, thresh, q, m)];
  }

  /** The records of the first n questions, question-major. */
  function SheetRecords(roi: Roi, thresh: BinaryImage, n: nat, opts: nat): seq<BubbleRecord>
  {
    if n == 0 then [] else SheetRecords(roi, thresh, n - 1, opts) + QuestionRecords(roi, thresh, n - 1, opts)
  }

  lemma DivModOf(k: int, q: int, m: int, o: int)
    requires 0 <= o < m && 0 <= q && k == q * m + o
    ensures k / m == q && k % m == o
  {
    var q', o' := k / m, k % m;
    assert k == q' * m + o';
    assert (q - q') * m == o' - o;
    if q > q' {
      Ink.MulMono(m, 1, q - q');
    } else if q < q' {
      Ink.MulMono(m, 1, q' - q);
    }
  }

  /** Record k of the sheet is the bubble of question k / opts, option k % opts. */
  lemma {:induction false} SheetRecordsAt(roi: Roi, thresh: BinaryImage, n: nat, opts: nat, k: nat)
    requires k < n * opts
    ensures |SheetRecords(roi, thresh, n, opts)| == n * opts
    ensures SheetRecords(roi, thresh, n, opts)[k] == Bubble(roi, thresh, k / opts, k % opts)
  {
    SheetRecordsLength(roi, thresh, n, opts);
    var prev := (n - 1) * opts;
    assert n * opts == prev + opts;
    if k < prev {
      SheetRecordsAt(roi, thresh, n - 1, opts, k);
    } else {
      DivModOf(k, n - 1, opts, k - prev);
    }
  }

  /** The records of an n x opts sheet, listed question-major and option-minor. */
  lemma SheetRecordsIndexed(roi: Roi, thresh: BinaryImage, n: nat, opts: nat)
    ensures |SheetRecords(roi, thresh, n, opts)| == n * opts
    ensures forall k :: 0 <= k < n * opts ==>
      opts > 0 && SheetRecords(roi, thresh, n, opts)[k] == Bubble(roi, thresh, k / opts, k % opts)
  {
    SheetRecordsLength(roi, thresh, n, opts);
    forall k | 0 <= k < n * opts
      ensures opts > 0 && SheetRecords(roi, thresh, n, opts)[k] == Bubble(roi, thresh, k / opts, k % opts)
    {
      SheetRecordsAt(roi, thresh, n, opts, k);
    }
  }

  lemma {:induction false} SheetRecordsLength(roi: Roi, thresh: BinaryImage, n: nat, opts: nat)
    ensures |SheetRecords(roi, thresh, n, opts)| == n * opts
  {
    if n > 0 {
      SheetRecordsLength(roi, thresh, n - 1, opts);
      assert n * opts == (n - 1) * opts + opts;
    }
  }

  // ---------------------------------------------------------------------------
  // The per-question decision
  // ---------------------------------------------------------------------------

  /** Python's `max` over a non-empty list. */
  function Max(s: seq<int>): (m: int)
    requires |s| > 0
    ensures m in s
    ensures forall i :: 0 <= i < |s| ==> s[i] <= m
  {
    if |s| == 1 then s[0]
    else
      var rest := Max(s[1..]);
      assert forall i :: 1 <= i < |s| ==> s[i] == s[1..][i - 1];
      if s[0] >= rest then s[0] else rest
  }

  /** Python's `list.index`: the first position holding v. */
  function FirstIndex(s: seq<int>, v: int): (i: nat)
    requires v in s
    ensures i < |s| && s[i] == v
    ensures forall j :: 0 <= j < i ==> s[j] != v
  {
    if s[0] == v then 0
    else 1 + FirstIndex(s[1..], v)
  }

  /**
   * The decision rule of grade_sheet for one question's counts: `a` is no answer
   * exactly when no count exceeds MarkThreshold, and otherwise the lowest-numbered
   * option holding the largest count.
   */
  predicate IsDecision(counts: seq<int>, a: Option<nat>)
  {
    && (a == None <==> forall i :: 0 <= i < |counts| ==> counts[i] <= MarkThreshold)
    && (a.Some? ==>
          && a.value < |counts|
          && counts[a.value] > MarkThreshold
          && (forall i :: 0 <= i < |counts| ==> counts[i] <= counts[a.value])
          && (forall i :: 0 <= i < a.value ==> counts[i] < counts[a.value]))
  }

  /** The rule leaves no choice: at most one answer satisfies it. */
  lemma DecisionUnique(counts: seq<int>, a: Option<nat>, b: Option<nat>)
    requires IsDecision(counts, a) && IsDecision(counts, b)
    ensures a == b
  {
    if a.Some? && b.Some? {
      assert counts[a.value] == counts[b.value];
    }
  }

  /**
   * The answer step of grade_sheet: `max(option_counts)`, then, when it passes the
   * `> 300` test, `option_counts.index` of that maximum; otherwise no answer.
   */
  method DetectAnswer(optionCounts: seq<int>) returns (markedIdx: Option<nat>)
    requires |optionCounts| > 0
    ensures IsDecision(optionCounts, markedIdx)
  {
    var maxPixels := Max(optionCounts);
    if maxPixels > MarkThreshold {
      markedIdx := Some(FirstIndex(optionCounts, maxPixels));
    } else {
      markedIdx := None;
    }
  }

  // ---------------------------------------------------------------------------
  // grade_sheet
  // ---------------------------------------------------------------------------

  /**
   * The inner loop of grade_sheet for question q: measures every option's bubble,
   * appending its count to the option counts and its record to `results`.
   */
  method MeasureQuestion(roi: Roi, thresh: BinaryImage, q: nat, optionsPerQ: nat, results0: seq<BubbleRecord>)
    returns (optionCounts: seq<nat>, results: seq<BubbleRecord>)
    ensures optionCounts == QuestionCounts(roi, thresh, q, optionsPerQ)
    ensures |optionCounts| == optionsPerQ
    ensures results == results0 + QuestionRecords(roi, thresh, q, optionsPerQ)
  {
    results := results0;
    var qY := roi.startY + q * roi.gapY;
    optionCounts := [];
    var opt := 0;
    while opt < optionsPerQ
      invariant 0 <= opt <= optionsPerQ
      invariant optionCounts == QuestionCounts(roi, thresh, q, opt)
      invariant results == results0 + QuestionRecords(roi, thresh, q, opt)
    {
      var optX := roi.startX + opt * roi.gapX;
      var totalPixels := InkCount(thresh, optX, qY, roi.radius);
      QuestionStep(roi, thresh, q, opt, results0);
      assert BubbleRecord(q, opt, optX, qY, totalPixels) == Bubble(roi, thresh, q, opt);
      optionCounts := optionCounts + [totalPixels];
      results := results + [BubbleRecord(q, opt, optX, qY, totalPixels)];
      opt := opt + 1;
    }
  }

  /**
   * grade_sheet on an already thresholded image: one record per bubble in
   * question-major order and one detected answer per question.
   */
  method GradeSheet(cfg: GraderConfig, thresh: BinaryImage) returns (r: Result<SheetGrading, GradeError>)
    ensures r.Failure? <==> cfg.exam.numQuestions > 0 && cfg.exam.optionsPerQuestion == 0
    ensures r.Success? ==>
      var n, opts := cfg.exam.numQuestions, cfg.exam.optionsPerQuestion;
      && |r.value.answers| == n
      && (forall q :: 0 <= q < n ==> IsDecision(QuestionCounts(cfg.roi, thresh, q, opts), r.value.answers[q]))
      && (forall q :: 0 <= q < n ==> r.value.answers[q] == None || r.value.answers[q].value < opts)
      && |r.value.results| == n * opts
      && (forall k :: 0 <= k < |r.value.results| ==> opts > 0 && r.value.results[k] == Bubble(cfg.roi, thresh, k / opts, k % opts))
  {
    var roi := cfg.roi;
    var numQuestions, optionsPerQ := cfg.exam.numQuestions, cfg.exam.optionsPerQuestion;
    var userAnswers: seq<Option<nat>> := [];
    var results: seq<BubbleRecord> := [];
    var q := 0;
    while q < numQuestions
      invariant 0 <= q <= numQuestions
      invariant q > 0 ==> optionsPerQ > 0
      invariant |userAnswers| == q
      invariant forall i :: 0 <= i < q ==> IsDecision(QuestionCounts(roi, thresh, i, optionsPerQ), userAnswers[i])
      invariant results == SheetRecords(roi, thresh, q, optionsPerQ)
    {
      var optionCounts;
      optionCounts, results := MeasureQuestion(roi, thresh, q, optionsPerQ, results);
      if |optionCounts| == 0 {
        return Failure(EmptyOptionCounts);
      }
      var markedIdx := DetectAnswer(optionCounts);
      userAnswers := userAnswers + [markedIdx];
      q := q + 1;
    }
    SheetRecordsIndexed(roi, thresh, numQuestions, optionsPerQ);
    r := Success(SheetGrading(userAnswers, results));
  }

  // ---------------------------------------------------------------------------
  // What the decision rule implies for whole sheets and for concrete counts
  // ---------------------------------------------------------------------------

  /** A blank thresholded sheet leaves every question unanswered. */
  lemma BlankSheetUnanswered(roi: Roi, thresh: BinaryImage, opts: nat, q: nat, a: Option<nat>)
    requires Blank(thresh) && IsDecision(QuestionCounts(roi, thresh, q, opts), a)
    ensures a == None
  {
    var counts := QuestionCounts(roi, thresh, q, opts);
    forall i | 0 <= i < opts ensures counts[i] <= MarkThreshold {
      BlankImageHasNoInk(thresh, BubbleX(roi, i), BubbleY(roi, q), roi.radius);
    }
  }

  /**
   * A bubble of radius r holds at most (2r+1)^2 pixels, so with radius 8 or less
   * (289 pixels) no count can pass MarkThreshold and no question is ever answered,
   * whatever the image. This covers the radius-5 grid of tests/test_grader.py.
   */
  lemma SmallBubblesNeverAnswered(roi: Roi, thresh: BinaryImage, opts: nat, q: nat, a: Option<nat>)
    requires roi.radius <= 8 && IsDecision(QuestionCounts(roi, thresh, q, opts), a)
    ensures a == None
  {
    var r := roi.radius;
    var counts := QuestionCounts(roi, thresh, q, opts);
    assert (2 * r + 1) * (2 * r + 1) <= 289 by {
      Ink.MulMono(2 * r + 1, 2 * r + 1, 17);
      Ink.MulMono(17, 2 * r + 1, 17);
    }
    forall i | 0 <= i < opts ensures counts[i] <= MarkThreshold {
      InkCountBound(thresh, BubbleX(roi, i), BubbleY(roi, q), r);
    }
  }

  /** At the threshold a count does not mark; one pixel more does. */
  lemma ThresholdExamples(a: Option<nat>, b: Option<nat>)
    requires IsDecision([MarkThreshold, 0, 0, 0], a)
    requires IsDecision([MarkThreshold + 1, 0, 0, 0], b)
    ensures a == None && b == Some(0)
  {
    DecisionUnique([MarkThreshold + 1, 0, 0, 0], b, Some(0));
  }

  /** Two equally dark bubbles: the first one is the answer. */
  lemma TieExample(a: Option<nat>)
    requires IsDecision([500, 500, 0, 0], a)
    ensures a == Some(0)
  {
    DecisionUnique([500, 500, 0, 0], a, Some(0));
  }

  // ---------------------------------------------------------------------------
  // calculate_score
  // ---------------------------------------------------------------------------

  function Min(a: nat, b: nat): nat { if a <= b then a else b }

  /** The detected answer equals the key entry; an unanswered question never does. */
  predicate Correct(ans: Option<int>, key: int) { ans == Some(key) }

  /** The number of positions i < n at which the answer matches the key. */
  function CorrectUpTo(answers: seq<Option<int>>, key: seq<int>, n: nat): (c: nat)
    requires n <= |answers| && n <= |key|
    ensures c <= n
  {
    if n == 0 then 0
    else CorrectUpTo(answers, key, n - 1) + (if Correct(answers[n - 1], key[n - 1]) then 1 else 0)
  }

  /** The score calculate_score reports: matches over the pairs that zip forms. */
  function Score(answers: seq<Option<int>>, key: seq<int>): (s: nat)
    ensures s <= |answers| && s <= |key|
  {
    CorrectUpTo(answers, key, Min(|answers|, |key|))
  }

  /** The positions below n whose answer matches the key. */
  function CorrectSet(answers: seq<Option<int>>, key: seq<int>, n: nat): set<nat>
    requires n <= |answers| && n <= |key|
  {
    set i: nat | i < n && Correct(answers[i], key[i])
  }

  /** The running count is the number of matching positions. */
  lemma {:induction false} CorrectUpToCounts(answers: seq<Option<int>>, key: seq<int>, n: nat)
    requires n <= |answers| && n <= |key|
    ensures CorrectUpTo(answers, key, n) == |CorrectSet(answers, key, n)|
  {
    if n > 0 {
      CorrectUpToCounts(answers, key, n - 1);
      var prev, cur := CorrectSet(answers, key, n - 1), CorrectSet(answers, key, n);
      if Correct(answers[n - 1], key[n - 1]) {
        forall i: nat ensures i in cur <==> i in prev + {n - 1} {
        }
        assert cur == prev + {n - 1};
        assert n - 1 !in prev;
      } else {
        forall i: nat ensures i in cur <==> i in prev {
        }
        assert cur == prev;
      }
    }
  }

  /** The score is full exactly when every zipped pair matches. */
  lemma {:induction false} FullScoreIff(answers: seq<Option<int>>, key: seq<int>, n: nat)
    requires n <= |answers| && n <= |key|
    ensures CorrectUpTo(answers, key, n) == n <==> forall i :: 0 <= i < n ==> Correct(answers[i], key[i])
  {
    if n > 0 {
      FullScoreIff(answers, key, n - 1);
    }
  }

  /** The score is zero exactly when no zipped pair matches; in particular an all-unanswered sheet scores 0. */
  lemma {:induction false} ZeroScoreIff(answers: seq<Option<int>>, key: seq<int>, n: nat)
    requires n <= |answers| && n <= |key|
    ensures CorrectUpTo(answers, key, n) == 0 <==> forall i :: 0 <= i < n ==> !Correct(answers[i], key[i])
  {
    if n > 0 {
      ZeroScoreIff(answers, key, n - 1);
    }
  }

  /** The worked scoring example: [0, none, 2] against [0, 1, 2] scores 2, and a matching sheet of 5 scores 5. */
  lemma ScoreExamples()
    ensures Score([Some(0), None, Some(2)], [0, 1, 2]) == 2
    ensures Score([Some(0), Some(1), Some(0), Some(2), Some(3)], [0, 1, 0, 2, 3]) == 5
  {
    var u := [Some(0), Some(1), Some(0), Some(2), Some(3)];
    var k := [0, 1, 0, 2, 3];
    FullScoreIff(u, k, 5);
  }

  /**
   * calculate_score: compares the detected answers with the answer key pair by pair
   * (zip stops at the shorter list) and reports the number of matches and one
   * detail record per pair.
   */
  method CalculateScore(cfg: GraderConfig, userAnswers: seq<Option<int>>) returns (score: nat, gradingDetails: seq<GradingDetail>)
    ensures var key := cfg.exam.answerKey;
      && score == Score(userAnswers, key)
      && score == |CorrectSet(userAnswers, key, Min(|userAnswers|, |key|))|
      && |gradingDetails| == Min(|userAnswers|, |key|)
      && score <= |gradingDetails|
      && (forall i :: 0 <= i < |gradingDetails| ==>
            gradingDetails[i] == GradingDetail(i + 1, userAnswers[i], key[i], Correct(userAnswers[i], key[i])))
      && score == |set i: nat | i < |gradingDetails| && gradingDetails[i].isCorrect|
  {
    var correctAnswers := cfg.exam.answerKey;
    var n := Min(|userAnswers|, |correctAnswers|);
    score := 0;
    gradingDetails := [];
    var i := 0;
    while i < n
      invariant 0 <= i <= n
      invariant score == CorrectUpTo(userAnswers, correctAnswers, i)
      invariant |gradingDetails| == i
      invariant forall j :: 0 <= j < i ==>
        gradingDetails[j] == GradingDetail(j + 1, userAnswers[j], correctAnswers[j], Correct(userAnswers[j], correctAnswers[j]))
    {
      var userAns, correctAns := userAnswers[i], correctAnswers[i];
      var isCorrect := userAns == Some(correctAns);
      if isCorrect {
        score := score + 1;
      }
      gradingDetails := gradingDetails + [GradingDetail(i + 1, userAns, correctAns, isCorrect)];
      i := i + 1;
    }
    CorrectUpToCounts(userAnswers, correctAnswers, n);
    assert (set j: nat | j < |gradingDetails| && gradingDetails[j].isCorrect) == CorrectSet(userAnswers, correctAnswers, n);
  }
}
