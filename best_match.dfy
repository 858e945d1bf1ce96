/** The best-match scan the pipeline uses whenever it picks a name by similarity: a
    running maximum that starts at 0 and is replaced only by a strictly greater score.
    `correct_field_names` and `get_sheet_type` both follow this pattern. */
module BestMatch {

  /** The position the scan ends on, or -1 when no score beats the initial 0. */
  function FirstStrictMax(scores: seq<real>): (k: int)
    ensures -1 <= k < |scores|
    ensures k == -1 <==> forall i :: 0 <= i < |scores| ==> scores[i] <= 0.0
    ensures k >= 0 ==> 0.0 < scores[k]
    ensures k >= 0 ==> forall i :: 0 <= i < |scores| ==> scores[i] <= scores[k]
    ensures k >= 0 ==> forall i :: 0 <= i < k ==> scores[i] < scores[k]
  {
    if |scores| == 0 then -1
    else
      var k := FirstStrictMax(scores[..|scores| - 1]);
      if Best(scores[..|scores| - 1], k) < scores[|scores| - 1] then |scores| - 1 else k
  }

  /** The running maximum after the scan: 0 before any score beats it. */
  function Best(scores: seq<real>, k: int): real
    requires -1 <= k < |scores|
  {
    if k == -1 then 0.0 else scores[k]
  }

  /** k holds a positive score that no score exceeds and that every earlier score is
      strictly below. */
  predicate IsFirstBest(scores: seq<real>, k: int)
  {
    0 <= k < |scores| && 0.0 < scores[k] &&
    (forall i :: 0 <= i < |scores| ==> scores[i] <= scores[k]) &&
    (forall i :: 0 <= i < k ==> scores[i] < scores[k])
  }

  /** The properties of `FirstStrictMax` pin it down: the position it ends on is the
      only one that is the first best. */
  lemma FirstStrictMaxUnique(scores: seq<real>, k: int)
    ensures IsFirstBest(scores, k) <==> k >= 0 && FirstStrictMax(scores) == k
  {
  }

  /** The scan over a longer list ends on the old position unless a new score beats
      the old best. */
  lemma FirstStrictMaxAppend(scores: seq<real>, s: real)
    ensures FirstStrictMax(scores + [s]) ==
      if Best(scores, FirstStrictMax(scores)) < s then |scores| else FirstStrictMax(scores)
  {
    assert (scores + [s])[..|scores|] == scores;
  }
}
