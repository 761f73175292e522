/**
 * The Performance Tracking tab: the history of submitted scores and their
 * average, which is shown only once there is at least one score.
 */
module Performance {
  import opened Wrappers

  /** Python's `sum` of the scores, left to right. */
  function Sum(scores: seq<real>): real {
    if scores == [] then 0.0 else Sum(scores[..|scores| - 1]) + scores[|scores| - 1]
  }

  /** `sum(user_performance) / len(user_performance)`; the list is non-empty. */
  function Average(scores: seq<real>): (avg: real)
    requires scores != []
    ensures avg * |scores| as real == Sum(scores)
  {
    Sum(scores) / |scores| as real
  }

  /**
   * What the tab shows: no average (the "No assessments taken yet." warning)
   * for an empty history, otherwise the average.
   */
  function ShownAverage(scores: seq<real>): (shown: Option<real>)
    ensures shown.None? <==> scores == []
    ensures shown.Some? ==> shown.value * |scores| as real == Sum(scores)
  {
    if scores == [] then None else Some(Average(scores))
  }

  /** A sum of scores in `[lo, hi]` lies between `len * lo` and `len * hi`. */
  lemma {:induction false} SumBounds(scores: seq<real>, lo: real, hi: real)
    requires forall i :: 0 <= i < |scores| ==> lo <= scores[i] <= hi
    ensures |scores| as real * lo <= Sum(scores) <= |scores| as real * hi
  {
    if scores != [] {
      var init := scores[..|scores| - 1];
      assert forall i :: 0 <= i < |init| ==> init[i] == scores[i];
      SumBounds(init, lo, hi);
      var n := |init| as real;
      assert |scores| as real * lo == n * lo + lo;
      assert |scores| as real * hi == n * hi + hi;
    }
  }

  /** The average of scores in `[lo, hi]` is in `[lo, hi]`; with percentages, in `[0, 100]`. */
  lemma AverageWithin(scores: seq<real>, lo: real, hi: real)
    requires scores != []
    requires forall i :: 0 <= i < |scores| ==> lo <= scores[i] <= hi
    ensures lo <= Average(scores) <= hi
  {
    SumBounds(scores, lo, hi);
  }

  /** Appending one score adds it to the running sum; earlier scores keep their contribution. */
  lemma SumAppend(scores: seq<real>, score: real)
    ensures Sum(scores + [score]) == Sum(scores) + score
  {
    assert (scores + [score])[..|scores|] == scores;
  }

  /** The history [80, 60, 100] averages 80. */
  lemma AverageExample()
    ensures Average([80.0, 60.0, 100.0]) == 80.0
  {
    var s := [80.0, 60.0, 100.0];
    assert Sum(s[..2][..1][..0]) == 0.0;
    assert Sum(s[..2][..1]) == 80.0;
    assert Sum(s[..2]) == 140.0;
    assert Sum(s) == 240.0;
  }
}
