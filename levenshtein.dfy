/** Edit distance, as the `Levenshtein.distance` library call computes it. */
module Levenshtein {

  function Min3(x: nat, y: nat, z: nat): (m: nat)
    ensures m <= x && m <= y && m <= z
    ensures m == x || m == y || m == z
  {
    if x <= y && x <= z then x else if y <= z then y else z
  }

  function Max(x: nat, y: nat): nat { if x >= y then x else y }

  /** The textbook recursive definition: the least number of single-character insertions,
      deletions and substitutions turning `a` into `b`, split on the last characters. */
  function Distance(a: string, b: string): nat
    decreases |a| + |b|
  {
    if |a| == 0 then |b|
    else if |b| == 0 then |a|
    else
      Min3(Distance(a[..|a| - 1], b) + 1,
           Distance(a, b[..|b| - 1]) + 1,
           Distance(a[..|a| - 1], b[..|b| - 1]) + (if a[|a| - 1] == b[|b| - 1] then 0 else 1))
  }

  lemma {:induction false} DistanceToSelf(a: string)
    ensures Distance(a, a) == 0
  {
    if |a| > 0 {
      DistanceToSelf(a[..|a| - 1]);
    }
  }

  lemma {:induction false} DistanceZeroMeansEqual(a: string, b: string)
    requires Distance(a, b) == 0
    ensures a == b
    decreases |a| + |b|
  {
    if |a| > 0 && |b| > 0 {
      var a', b' := a[..|a| - 1], b[..|b| - 1];
      assert Distance(a', b') == 0 && a[|a| - 1] == b[|b| - 1];
      DistanceZeroMeansEqual(a', b');
      assert a == a' + [a[|a| - 1]] && b == b' + [b[|b| - 1]];
    }
  }

  /** Substituting along the shorter string and inserting the rest never costs more than
      the longer length. */
  lemma {:induction false} DistanceAtMostLonger(a: string, b: string)
    ensures Distance(a, b) <= Max(|a|, |b|)
    decreases |a| + |b|
  {
    if |a| > 0 && |b| > 0 {
      DistanceAtMostLonger(a[..|a| - 1], b[..|b| - 1]);
    }
  }

  lemma {:induction false} DistanceSymmetric(a: string, b: string)
    ensures Distance(a, b) == Distance(b, a)
    decreases |a| + |b|
  {
    if |a| > 0 && |b| > 0 {
      DistanceSymmetric(a[..|a| - 1], b);
      DistanceSymmetric(a, b[..|b| - 1]);
      DistanceSymmetric(a[..|a| - 1], b[..|b| - 1]);
    }
  }

  /** The edit distance is at least the difference in length. */
  lemma {:induction false} DistanceAtLeastLengthGap(a: string, b: string)
    ensures Distance(a, b) >= |a| - |b| && Distance(a, b) >= |b| - |a|
    decreases |a| + |b|
  {
    if |a| > 0 && |b| > 0 {
      DistanceAtLeastLengthGap(a[..|a| - 1], b);
      DistanceAtLeastLengthGap(a, b[..|b| - 1]);
      DistanceAtLeastLengthGap(a[..|a| - 1], b[..|b| - 1]);
    }
  }

  /** One step of the recurrence, stated on prefixes of two fixed strings. */
  lemma DistanceOfPrefixes(a: string, b: string, i: nat, j: nat)
    requires 1 <= i <= |a| && 1 <= j <= |b|
    ensures Distance(a[..i], b[..j]) ==
      Min3(Distance(a[..i - 1], b[..j]) + 1,
           Distance(a[..i], b[..j - 1]) + 1,
           Distance(a[..i - 1], b[..j - 1]) + (if a[i - 1] == b[j - 1] then 0 else 1))
  {
    assert a[..i][..i - 1] == a[..i - 1] && b[..j][..j - 1] == b[..j - 1];
  }

  /** One row of the table: from the distances of the first i-1 characters of `a` to
      every prefix of `b`, those of the first i characters. */
  method NextRow(a: string, b: string, i: nat, prev: seq<nat>) returns (cur: seq<nat>)
    requires 1 <= i <= |a| && |prev| == |b| + 1
    requires forall k :: 0 <= k <= |b| ==> prev[k] == Distance(a[..i - 1], b[..k])
    ensures |cur| == |b| + 1
    ensures forall k :: 0 <= k <= |b| ==> cur[k] == Distance(a[..i], b[..k])
  {
    cur := [i];
    for j := 1 to |b| + 1
      invariant |cur| == j
      invariant forall k :: 0 <= k < j ==> cur[k] == Distance(a[..i], b[..k])
    {
      var cost := if a[i - 1] == b[j - 1] then 0 else 1;
      DistanceOfPrefixes(a, b, i, j);
      assert prev[j] == Distance(a[..i - 1], b[..j]) && prev[j - 1] == Distance(a[..i - 1], b[..j - 1]);
      assert cur[j - 1] == Distance(a[..i], b[..j - 1]);
      var next := Min3(prev[j] + 1, cur[j - 1] + 1, prev[j - 1] + cost);
      assert next == Distance(a[..i], b[..j]);
      ghost var done := cur;
      cur := cur + [next];
      assert forall k :: 0 <= k < j ==> cur[k] == done[k];
    }
  }

  /** The dynamic-programming computation the library performs, one row of prefix
      distances at a time. */
  method ComputeDistance(a: string, b: string) returns (d: nat)
    ensures d == Distance(a, b)
  {
    var prev: seq<nat> := [];
    for j := 0 to |b| + 1
      invariant |prev| == j
      invariant forall k :: 0 <= k < j ==> prev[k] == Distance(a[..0], b[..k])
    {
      prev := prev + [j];
    }
    for i := 1 to |a| + 1
      invariant |prev| == |b| + 1
      invariant forall k :: 0 <= k <= |b| ==> prev[k] == Distance(a[..i - 1], b[..k])
    {
      prev := NextRow(a, b, i, prev);
    }
    assert a[..|a|] == a && b[..|b|] == b;
    d := prev[|b|];
  }
}
