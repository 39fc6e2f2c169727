/** Pieces every game shares: the feedback banner's kind and the pass rule. */
module GameCommon {
  import ProgressManager

  /** The `type` of a game's feedback message. */
  datatype FeedbackKind = Success | Error | Info

  /**
   * The results a game hands to `updateProgress` when it completes: its score,
   * its item total, and whether the score reached the passing score.
   */
  function Completion(score: int, totalItems: int, passingScore: int): (r: ProgressManager.GameResults)
    ensures r.score == score && r.totalItems == totalItems
    ensures r.passed <==> score >= passingScore
  {
    ProgressManager.GameResults(score, totalItems, score >= passingScore)
  }

  /** `xs` is `ys` with some entries left out and the others in their original order. */
  predicate Subsequence<T(==)>(xs: seq<T>, ys: seq<T>)
    decreases |ys|
  {
    if |xs| == 0 then true
    else if |ys| == 0 then false
    else (xs[0] == ys[0] && Subsequence(xs[1..], ys[1..])) || Subsequence(xs, ys[1..])
  }

  /** A subset is no larger than its superset; used to bound counts of correct answers. */
  lemma SubsetSize<T>(a: set<T>, b: set<T>)
    requires a <= b
    ensures |a| <= |b|
  {
    assert b == a + (b - a);
  }
}
