/** Exhaustive descriptor matching: every descriptor of the first set is
    paired with the index of its best partner in the second set, by sum of
    squared differences (lowest wins) or by a normalised cross-correlation
    score (highest above −1 wins); the first index wins ties. */
module Matching {
  import opened Descriptors

  datatype Option<T> = None | Some(value: T)

  /** 'SSD', or any other method name, which selects correlation. */
  datatype Metric = SSD | NCC

  /** A normalised cross-correlation score of two descriptors, given from outside. */
  type Correlation = (Descriptor, Descriptor) -> real

  function Square(d: int): (s: int)
    ensures s >= 0 && (s == 0 <==> d == 0)
  {
    d * d
  }

  /** Exact sum of squared differences of two equally long descriptors. */
  function Ssd(a: Descriptor, b: Descriptor): int
    requires |a| == |b|
  {
    if |a| == 0 then 0 else Square(a[0] as int - b[0] as int) + Ssd(a[1..], b[1..])
  }

  /** The SSD as numpy computes it on 8-bit arrays: the difference and its
      square each wrap modulo 256 before the (wide) sum. */
  function WrappedSsd(a: Descriptor, b: Descriptor): int
    requires |a| == |b|
  {
    if |a| == 0 then 0 else Square((a[0] as int - b[0] as int) % 256) % 256 + WrappedSsd(a[1..], b[1..])
  }

  /** Every descriptor of A has the length of every descriptor of B. */
  predicate Comparable(A: seq<Descriptor>, B: seq<Descriptor>) {
    forall i, j :: 0 <= i < |A| && 0 <= j < |B| ==> |A[i]| == |B[j]|
  }

  /** The score of a against each descriptor of B, in order. */
  function Scores(a: Descriptor, B: seq<Descriptor>, metric: Metric, ncc: Correlation): (s: seq<real>)
    requires metric == SSD ==> forall j :: 0 <= j < |B| ==> |B[j]| == |a|
    ensures |s| == |B|
  {
    seq(|B|, j requires 0 <= j < |B| => if metric == SSD then Ssd(a, B[j]) as real else ncc(a, B[j]))
  }

  /** The running minimum over s[..n]: the index kept by a scan that replaces
      its best only on a strictly smaller score, starting from +∞. */
  function FirstMin(s: seq<real>, n: nat): (r: Option<nat>)
    requires n <= |s|
    ensures r.Some? ==> r.value < n
  {
    if n == 0 then None
    else
      var prev := FirstMin(s, n - 1);
      if prev.None? || s[n - 1] < s[prev.value] then Some(n - 1) else prev
  }

  /** The running maximum over s[..n] of the scores above floor: a scan that
      starts from floor and replaces its best only on a strictly larger score. */
  function FirstMaxAbove(s: seq<real>, floor: real, n: nat): (r: Option<nat>)
    requires n <= |s|
    ensures r.Some? ==> r.value < n
  {
    if n == 0 then None
    else
      var prev := FirstMaxAbove(s, floor, n - 1);
      if s[n - 1] > (if prev.None? then floor else s[prev.value]) then Some(n - 1) else prev
  }

  /** The partner of descriptor a in B. */
  function Partner(a: Descriptor, B: seq<Descriptor>, metric: Metric, ncc: Correlation): Option<nat>
    requires metric == SSD ==> forall j :: 0 <= j < |B| ==> |B[j]| == |a|
  {
    var s := Scores(a, B, metric, ncc);
    match metric
    case SSD => FirstMin(s, |s|)
    case NCC => FirstMaxAbove(s, -1.0, |s|)
  }

  /** The matching loop: for each descriptor of A, scan B keeping the best
      score and its index, then record (i, best index). */
  method MatchFeatures(A: seq<Descriptor>, B: seq<Descriptor>, metric: Metric, ncc: Correlation)
    returns (matches: seq<(nat, Option<nat>)>)
    requires metric == SSD ==> Comparable(A, B)
    ensures |matches| == |A|
    ensures forall i :: 0 <= i < |A| ==> matches[i] == (i, Partner(A[i], B, metric, ncc))
  {
    matches := [];
    for i := 0 to |A|
      invariant |matches| == i
      invariant forall i' :: 0 <= i' < i ==> matches[i'] == (i', Partner(A[i'], B, metric, ncc))
    {
      var a := A[i];
      ghost var s := Scores(a, B, metric, ncc);
      var bestIndex: Option<nat> := None;
      var bestScore: real := if metric == SSD then 0.0 else -1.0;
      for j := 0 to |B|
        invariant metric == SSD ==> bestIndex == FirstMin(s, j)
        invariant metric == NCC ==> bestIndex == FirstMaxAbove(s, -1.0, j)
        invariant bestIndex.Some? ==> bestIndex.value < j && bestScore == s[bestIndex.value]
        invariant metric == NCC && bestIndex.None? ==> bestScore == -1.0
      {
        if metric == SSD {
          var score := Ssd(a, B[j]) as real;
          if bestIndex.None? || score < bestScore {
            bestScore := score;
            bestIndex := Some(j);
          }
        } else {
          var score := ncc(a, B[j]);
          if score > bestScore {
            bestScore := score;
            bestIndex := Some(j);
          }
        }
      }
      matches := matches + [(i, bestIndex)];
    }
  }

  lemma {:induction false} FirstMinSpec(s: seq<real>, n: nat)
    requires n <= |s|
    ensures FirstMin(s, n).None? <==> n == 0
    ensures FirstMin(s, n).Some? ==>
      (forall k :: 0 <= k < n ==> s[FirstMin(s, n).value] <= s[k]) &&
      (forall k :: 0 <= k < FirstMin(s, n).value ==> s[FirstMin(s, n).value] < s[k])
  {
    if n > 0 {
      FirstMinSpec(s, n - 1);
    }
  }

  lemma {:induction false} FirstMaxAboveSpec(s: seq<real>, floor: real, n: nat)
    requires n <= |s|
    ensures FirstMaxAbove(s, floor, n).None? <==> forall k :: 0 <= k < n ==> s[k] <= floor
    ensures FirstMaxAbove(s, floor, n).Some? ==>
      floor < s[FirstMaxAbove(s, floor, n).value] &&
      (forall k :: 0 <= k < n ==> s[k] <= s[FirstMaxAbove(s, floor, n).value]) &&
      (forall k :: 0 <= k < FirstMaxAbove(s, floor, n).value ==> s[k] < s[FirstMaxAbove(s, floor, n).value])
  {
    if n > 0 {
      FirstMaxAboveSpec(s, floor, n - 1);
    }
  }

  /** SSD: there is no partner exactly when B is empty; otherwise the partner
      is the smallest index whose SSD is the least. */
  lemma PartnerSsd(a: Descriptor, B: seq<Descriptor>, ncc: Correlation)
    requires forall j :: 0 <= j < |B| ==> |B[j]| == |a|
    ensures Partner(a, B, SSD, ncc).None? <==> |B| == 0
    ensures Partner(a, B, SSD, ncc).Some? ==>
      var j := Partner(a, B, SSD, ncc).value;
      j < |B| &&
      (forall k :: 0 <= k < |B| ==> Ssd(a, B[j]) <= Ssd(a, B[k])) &&
      (forall k :: 0 <= k < j ==> Ssd(a, B[j]) < Ssd(a, B[k]))
  {
    var s := Scores(a, B, SSD, ncc);
    FirstMinSpec(s, |s|);
    if Partner(a, B, SSD, ncc).Some? {
      var j := Partner(a, B, SSD, ncc).value;
      assert forall k :: 0 <= k < |B| ==> s[k] == Ssd(a, B[k]) as real;
    }
  }

  /** Correlation: the partner is the smallest index whose score is the
      largest among the scores above −1, and there is none when no score
      exceeds −1. */
  lemma PartnerNcc(a: Descriptor, B: seq<Descriptor>, ncc: Correlation)
    ensures Partner(a, B, NCC, ncc).None? <==> forall k :: 0 <= k < |B| ==> ncc(a, B[k]) <= -1.0
    ensures Partner(a, B, NCC, ncc).Some? ==>
      var j := Partner(a, B, NCC, ncc).value;
      j < |B| && -1.0 < ncc(a, B[j]) &&
      (forall k :: 0 <= k < |B| ==> ncc(a, B[k]) <= ncc(a, B[j])) &&
      (forall k :: 0 <= k < j ==> ncc(a, B[k]) < ncc(a, B[j]))
  {
    var s := Scores(a, B, NCC, ncc);
    FirstMaxAboveSpec(s, -1.0, |s|);
    assert forall k :: 0 <= k < |B| ==> s[k] == ncc(a, B[k]);
  }

  /** A descriptor's SSD is zero exactly against an identical descriptor. */
  lemma {:induction false} SsdZeroIff(a: Descriptor, b: Descriptor)
    requires |a| == |b|
    ensures Ssd(a, b) >= 0
    ensures Ssd(a, b) == 0 <==> a == b
  {
    if |a| > 0 {
      SsdZeroIff(a[1..], b[1..]);
      if a[0] == b[0] && a[1..] == b[1..] {
        assert a == [a[0]] + a[1..] && b == [b[0]] + b[1..];
      }
    }
  }

  /** Matching a set of distinct equally long descriptors against itself by
      exact SSD pairs every descriptor with itself. */
  lemma SelfMatch(A: seq<Descriptor>, ncc: Correlation, i: nat)
    requires Comparable(A, A) && i < |A|
    requires forall k, l :: 0 <= k < l < |A| ==> A[k] != A[l]
    ensures Partner(A[i], A, SSD, ncc) == Some(i)
  {
    PartnerSsd(A[i], A, ncc);
    var j := Partner(A[i], A, SSD, ncc).value;
    SsdZeroIff(A[i], A[i]);
    SsdZeroIff(A[i], A[j]);
  }

  /** The wrapped SSD of a against each descriptor of B. */
  function WrappedScores(a: Descriptor, B: seq<Descriptor>): (s: seq<real>)
    requires forall j :: 0 <= j < |B| ==> |B[j]| == |a|
    ensures |s| == |B|
  {
    seq(|B|, j requires 0 <= j < |B| => WrappedSsd(a, B[j]) as real)
  }

  /** The partner the matching loop selects when the SSD wraps. */
  function WrappedPartner(a: Descriptor, B: seq<Descriptor>): Option<nat>
    requires forall j :: 0 <= j < |B| ==> |B[j]| == |a|
  {
    FirstMin(WrappedScores(a, B), |B|)
  }

  /** With 8-bit wrap-around, gray levels 0 and 16 differ by 240 ≡ −16 and
      240² = 57600 = 225·256 ≡ 0, so [0] and [16] score 0; matching the
      distinct descriptors [[16], [0]] against themselves then pairs [0]
      with [16] instead of itself, while the exact SSD pairs it with itself. */
  lemma WrappedSsdSelfMatchFails(ncc: Correlation)
    ensures WrappedSsd([0], [16]) == 0
    ensures WrappedPartner([0], [[16], [0]]) == Some(0)
    ensures Partner([0], [[16], [0]], SSD, ncc) == Some(1)
  {
    assert WrappedSsd([0], [16]) == Square(240) % 256 + WrappedSsd([], []);
    var s := WrappedScores([0], [[16], [0]]);
    assert s[0] == 0.0 && s[1] == 0.0;
    assert FirstMin(s, 1) == Some(0);
    var t := Scores([0], [[16], [0]], SSD, ncc);
    assert Ssd([0], [16]) == Square(-16) + Ssd([], []);
    assert Ssd([0], [0]) == Square(0) + Ssd([], []);
    assert t[0] == 256.0 && t[1] == 0.0;
    assert FirstMin(t, 1) == Some(0);
  }
}
