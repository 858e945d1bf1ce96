/** `letter_by_letter_similarity`: one minus the edit distance divided by the longer
    length. The source repeats the same function in four modules; this one definition
    stands for all of them. */
module Similarity {
  import opened Wrappers
  import opened Levenshtein

  /** `None` is the ZeroDivisionError the source raises when both strings are empty. */
  function LetterByLetterSimilarity(a: string, b: string): (r: Option<real>)
    ensures r.None? <==> a == [] && b == []
    ensures r.Some? ==> 0.0 <= r.value <= 1.0
    ensures r.Some? ==> (r.value == 1.0 <==> a == b)
  {
    if |a| == 0 && |b| == 0 then None
    else
      var d, m := Distance(a, b), Max(|a|, |b|);
      DistanceAtMostLonger(a, b);
      DistanceZeroIffEqual(a, b);
      RatioFacts(d, m);
      Some(1.0 - d as real / m as real)
  }

  lemma DistanceZeroIffEqual(a: string, b: string)
    ensures Distance(a, b) == 0 <==> a == b
  {
    DistanceToSelf(a);
    if Distance(a, b) == 0 { DistanceZeroMeansEqual(a, b); }
  }

  lemma RatioFacts(d: nat, m: nat)
    requires 0 < m && d <= m
    ensures 0.0 <= d as real / m as real <= 1.0
    ensures d as real / m as real == 0.0 <==> d == 0
  {
  }

  lemma SimilaritySymmetric(a: string, b: string)
    ensures LetterByLetterSimilarity(a, b) == LetterByLetterSimilarity(b, a)
  {
    DistanceSymmetric(a, b);
  }

  /** For strings of one length n the score is `1 - distance / n`. */
  lemma SimilarityEqualLength(a: string, b: string)
    requires |a| == |b| > 0
    ensures LetterByLetterSimilarity(a, b) == Some(1.0 - Distance(a, b) as real / |a| as real)
  {
  }

  /** A non-empty label scores 0 against the empty string, so "" can never be a strict
      improvement on the initial best score of 0. */
  lemma SimilarityWithEmpty(a: string)
    requires a != []
    ensures LetterByLetterSimilarity(a, "") == Some(0.0)
    ensures LetterByLetterSimilarity("", a) == Some(0.0)
  {
    assert Distance(a, "") == |a| && Distance("", a) == |a|;
    assert |a| as real / |a| as real == 1.0;
  }
}
