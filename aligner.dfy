/**
 * The decision layer of ImageAligner.align_image: the missing-descriptor guard,
 * Lowe's ratio test over the two nearest neighbours of every query descriptor,
 * the minimum-match guard and the extraction of the matched point pairs that
 * are handed to the homography estimation.
 */
module Aligner {
  import opened Wrappers

  /** Fewest matches from which a homography is computed. */
  const MinMatches: nat := 4

  /** The ratio ImageAligner uses unless told otherwise. */
  const DefaultMatchRatio: real := 0.75

  /** A keypoint location. */
  datatype Point = Point(x: real, y: real)

  /** A descriptor match: query keypoint, train keypoint, Hamming distance of their descriptors. */
  datatype DMatch = DMatch(queryIdx: nat, trainIdx: nat, distance: nat)

  /** One row of knnMatch(k=2): the nearest neighbours of one query descriptor, nearest first. */
  type KnnRow = seq<DMatch>

  /** The descriptor matrix of one image; only whether it is present matters here. */
  type Descriptors = seq<seq<bv8>>

  datatype AlignError =
    | FeaturesNotDetected  // a descriptor set is None
    | PairUnpackFailed     // a kNN row does not unpack into (m, n)
    | NotEnoughMatches     // fewer than MinMatches matches pass the ratio test

  /** What goes into the homography estimation: the kept matches and their point lists. */
  datatype Correspondences = Correspondences(goodMatches: seq<DMatch>, srcPts: seq<Point>, dstPts: seq<Point>)

  /** Every row unpacks into exactly two matches. */
  predicate AllPairs(rows: seq<KnnRow>)
  {
    forall i :: 0 <= i < |rows| ==> |rows[i]| == 2
  }

  /** knnMatch only reports indices of keypoints that exist. */
  predicate IndicesIn(rows: seq<KnnRow>, nQuery: nat, nTrain: nat)
  {
    forall i, j :: 0 <= i < |rows| && 0 <= j < |rows[i]| ==> rows[i][j].queryIdx < nQuery && rows[i][j].trainIdx < nTrain
  }

  /** Lowe's ratio test on one (m, n) pair. */
  predicate PassesRatio(row: KnnRow, ratio: real)
    requires |row| == 2
  {
    (row[0].distance as real) < ratio * (row[1].distance as real)
  }

  /** The nearest neighbour of every row. */
  function FirstNeighbours(rows: seq<KnnRow>): seq<DMatch>
    requires AllPairs(rows)
  {
    seq(|rows|, i requires 0 <= i < |rows| => rows[i][0])
  }

  /** The matches the ratio-test loop appends, in order. */
  function GoodMatches(rows: seq<KnnRow>, ratio: real): (good: seq<DMatch>)
    requires AllPairs(rows)
    ensures |good| <= |rows|
    ensures forall m :: m in good ==> exists i :: 0 <= i < |rows| && rows[i][0] == m
  {
    if |rows| == 0 then []
    else
      var last := |rows| - 1;
      var prev := GoodMatches(rows[..last], ratio);
      assert forall m :: m in prev ==> exists i :: 0 <= i < |rows| && rows[i][0] == m by {
        forall m | m in prev ensures exists i :: 0 <= i < |rows| && rows[i][0] == m {
          var i :| 0 <= i < last && rows[..last][i][0] == m;
          assert rows[i][0] == m;
        }
      }
      prev + (if PassesRatio(rows[last], ratio) then [rows[last][0]] else [])
  }

  /** The positions of the rows that pass the ratio test, ascending. */
  function KeptIndices(rows: seq<KnnRow>, ratio: real): (idx: seq<nat>)
    requires AllPairs(rows)
    ensures forall j :: 0 <= j < |idx| ==> idx[j] < |rows|
    ensures forall j, j' :: 0 <= j < j' < |idx| ==> idx[j] < idx[j']
    ensures forall i :: 0 <= i < |rows| ==> (i in idx <==> PassesRatio(rows[i], ratio))
  {
    if |rows| == 0 then []
    else
      var last := |rows| - 1;
      var prev := KeptIndices(rows[..last], ratio);
      assert forall i :: 0 <= i < last ==> rows[..last][i] == rows[i];
      prev + (if PassesRatio(rows[last], ratio) then [last] else [])
  }

  /**
   * Soundness, completeness and order of the filter: the kept matches are exactly
   * the nearest neighbours of the rows that pass the ratio test, in row order.
   */
  lemma {:induction false} GoodMatchesAreKeptNeighbours(rows: seq<KnnRow>, ratio: real)
    requires AllPairs(rows)
    ensures |GoodMatches(rows, ratio)| == |KeptIndices(rows, ratio)|
    ensures forall j :: 0 <= j < |GoodMatches(rows, ratio)| ==>
      GoodMatches(rows, ratio)[j] == rows[KeptIndices(rows, ratio)[j]][0]
  {
    if |rows| > 0 {
      var last := |rows| - 1;
      var front := rows[..last];
      GoodMatchesAreKeptNeighbours(front, ratio);
      var good, idx := GoodMatches(front, ratio), KeptIndices(front, ratio);
      var tail, tailIdx := if PassesRatio(rows[last], ratio) then [rows[last][0]] else [],
                           if PassesRatio(rows[last], ratio) then [last] else [];
      var g, k := GoodMatches(rows, ratio), KeptIndices(rows, ratio);
      assert g == good + tail && k == idx + tailIdx;
      forall j | 0 <= j < |g| ensures g[j] == rows[k[j]][0] {
        if j < |good| {
          assert g[j] == good[j] == front[idx[j]][0];
          assert k[j] == idx[j];
        }
      }
    }
  }

  /** `a` is an order-preserving subsequence of `b`. */
  predicate IsSubsequence<T(==)>(a: seq<T>, b: seq<T>)
  {
    if a == [] then true
    else if b == [] then false
    else (a[|a| - 1] == b[|b| - 1] && IsSubsequence(a[..|a| - 1], b[..|b| - 1])) || IsSubsequence(a, b[..|b| - 1])
  }

  lemma {:induction false} SubsequenceOfEmpty<T>(b: seq<T>)
    ensures IsSubsequence([], b)
  {
  }

  /** Appending to both sides, or to the longer side only, keeps a subsequence. */
  lemma SubsequenceExtend<T>(a: seq<T>, b: seq<T>, x: T)
    requires IsSubsequence(a, b)
    ensures IsSubsequence(a + [x], b + [x])
    ensures IsSubsequence(a, b + [x])
  {
    assert (a + [x])[..|a|] == a;
    assert (b + [x])[..|b|] == b;
  }

  /** good_matches is an order-preserving subsequence of the nearest neighbours. */
  lemma {:induction false} GoodMatchesSubsequence(rows: seq<KnnRow>, ratio: real)
    requires AllPairs(rows)
    ensures IsSubsequence(GoodMatches(rows, ratio), FirstNeighbours(rows))
  {
    if |rows| == 0 {
      SubsequenceOfEmpty(FirstNeighbours(rows));
    } else {
      var last := |rows| - 1;
      GoodMatchesSubsequence(rows[..last], ratio);
      var good := GoodMatches(rows[..last], ratio);
      assert FirstNeighbours(rows) == FirstNeighbours(rows[..last]) + [rows[last][0]];
      SubsequenceExtend(good, FirstNeighbours(rows[..last]), rows[last][0]);
      if PassesRatio(rows[last], ratio) {
        assert GoodMatches(rows, ratio) == good + [rows[last][0]];
      } else {
        assert GoodMatches(rows, ratio) == good;
      }
    }
  }

  /**
   * Distances are non-negative, so a smaller ratio is stricter: every row it keeps
   * is kept by a larger ratio, and its matches form a subsequence of the larger ratio's.
   */
  lemma {:induction false} StricterRatioKeepsSubsequence(rows: seq<KnnRow>, r1: real, r2: real)
    requires AllPairs(rows) && r1 <= r2
    ensures forall i :: 0 <= i < |rows| && PassesRatio(rows[i], r1) ==> PassesRatio(rows[i], r2)
    ensures IsSubsequence(GoodMatches(rows, r1), GoodMatches(rows, r2))
    ensures |GoodMatches(rows, r1)| <= |GoodMatches(rows, r2)|
  {
    forall i | 0 <= i < |rows| && PassesRatio(rows[i], r1) ensures PassesRatio(rows[i], r2) {
      RatioMonotone(rows[i], r1, r2);
    }
    if |rows| == 0 {
      SubsequenceOfEmpty(GoodMatches(rows, r2));
    } else {
      var last := |rows| - 1;
      StricterRatioKeepsSubsequence(rows[..last], r1, r2);
      RatioMonotone(rows[last], r1, r2);
      var good1, good2 := GoodMatches(rows[..last], r1), GoodMatches(rows[..last], r2);
      var m := rows[last][0];
      SubsequenceExtend(good1, good2, m);
      if PassesRatio(rows[last], r1) {
        assert GoodMatches(rows, r1) == good1 + [m] && GoodMatches(rows, r2) == good2 + [m];
      } else if PassesRatio(rows[last], r2) {
        assert GoodMatches(rows, r1) == good1 && GoodMatches(rows, r2) == good2 + [m];
      } else {
        assert GoodMatches(rows, r1) == good1 && GoodMatches(rows, r2) == good2;
      }
    }
  }

  lemma RatioMonotone(row: KnnRow, r1: real, r2: real)
    requires |row| == 2 && r1 <= r2
    ensures PassesRatio(row, r1) ==> PassesRatio(row, r2)
  {
    var d := row[1].distance as real;
    assert r1 * d <= r2 * d;
  }

  /**
   * At the default ratio a nearest neighbour must be strictly closer than three
   * quarters of the second: distances 74 and 100 pass, 75 and 100 do not.
   */
  lemma DefaultRatioBoundary(q: nat, t1: nat, t2: nat)
    ensures PassesRatio([DMatch(q, t1, 74), DMatch(q, t2, 100)], DefaultMatchRatio)
    ensures !PassesRatio([DMatch(q, t1, 75), DMatch(q, t2, 100)], DefaultMatchRatio)
  {
  }

  /**
   * align_image up to the homography: fails when a descriptor set is missing
   * (before any matching), when a kNN row does not unpack into a pair, or when
   * fewer than MinMatches matches pass the ratio test; otherwise returns the kept
   * matches with their query and train points. `knn` is what knnMatch(des1, des2, k=2)
   * returns; it is not consulted when a descriptor set is missing.
   */
  method AlignImage(matchRatio: real, kp1: seq<Point>, des1: Option<Descriptors>,
                    kp2: seq<Point>, des2: Option<Descriptors>, knn: seq<KnnRow>)
    returns (r: Result<Correspondences, AlignError>)
    requires IndicesIn(knn, |kp1|, |kp2|)
    ensures des1 == None || des2 == None ==> r == Failure(FeaturesNotDetected)
    ensures des1 != None && des2 != None && !AllPairs(knn) ==> r == Failure(PairUnpackFailed)
    ensures des1 != None && des2 != None && AllPairs(knn) ==>
      if |GoodMatches(knn, matchRatio)| < MinMatches then r == Failure(NotEnoughMatches)
      else
        && r.Success?
        && r.value.goodMatches == GoodMatches(knn, matchRatio)
        && |r.value.srcPts| == |r.value.goodMatches| == |r.value.dstPts|
        && (forall i :: 0 <= i < |r.value.goodMatches| ==>
              && r.value.goodMatches[i].queryIdx < |kp1| && r.value.goodMatches[i].trainIdx < |kp2|
              && r.value.srcPts[i] == kp1[r.value.goodMatches[i].queryIdx]
              && r.value.dstPts[i] == kp2[r.value.goodMatches[i].trainIdx])
  {
    if des1 == None || des2 == None {
      return Failure(FeaturesNotDetected);
    }
    var goodMatches: seq<DMatch> := [];
    var i := 0;
    while i < |knn|
      invariant 0 <= i <= |knn|
      invariant AllPairs(knn[..i])
      invariant goodMatches == GoodMatches(knn[..i], matchRatio)
    {
      var row := knn[i];
      if |row| != 2 {
        return Failure(PairUnpackFailed);
      }
      var m, n := row[0], row[1];
      assert knn[..i + 1][..i] == knn[..i];
      if (m.distance as real) < matchRatio * (n.distance as real) {
        goodMatches := goodMatches + [m];
      }
      i := i + 1;
    }
    assert knn[..|knn|] == knn;
    if |goodMatches| < MinMatches {
      return Failure(NotEnoughMatches);
    }
    assert forall j :: 0 <= j < |goodMatches| ==> goodMatches[j].queryIdx < |kp1| && goodMatches[j].trainIdx < |kp2| by {
      forall j | 0 <= j < |goodMatches| ensures goodMatches[j].queryIdx < |kp1| && goodMatches[j].trainIdx < |kp2| {
        assert goodMatches[j] in goodMatches;
        var row :| 0 <= row < |knn| && knn[row][0] == goodMatches[j];
      }
    }
    var srcPts := seq(|goodMatches|, j requires 0 <= j < |goodMatches| => kp1[goodMatches[j].queryIdx]);
    var dstPts := seq(|goodMatches|, j requires 0 <= j < |goodMatches| => kp2[goodMatches[j].trainIdx]);
    r := Success(Correspondences(goodMatches, srcPts, dstPts));
  }
}
