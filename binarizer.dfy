/** Binary thresholding of the index map (OpenCV THRESH_BINARY, maximum 255). */
module Binarizer {
  import opened Grids

  /** 255 where the value is strictly greater than `t`, 0 elsewhere. */
  function Threshold(m: seq<seq<real>>, t: real): (mask: seq<seq<int>>)
    ensures SameShape(mask, m)
    ensures IsBinary(mask)
    ensures forall i, j :: 0 <= i < |m| && 0 <= j < |m[i]| ==> (mask[i][j] == 255 <==> m[i][j] > t)
  {
    seq(|m|, i requires 0 <= i < |m| =>
      seq(|m[i]|, j requires 0 <= j < |m[i]| => if m[i][j] > t then 255 else 0))
  }

  /** Raising the threshold never adds a foreground pixel. */
  lemma ThresholdMonotone(m: seq<seq<real>>, t1: real, t2: real)
    requires t1 <= t2
    ensures Within(Threshold(m, t2), Threshold(m, t1))
  {
  }

  /** A map with no value above the threshold gives an empty mask. */
  lemma ThresholdAllBelow(m: seq<seq<real>>, t: real)
    requires forall i, j :: 0 <= i < |m| && 0 <= j < |m[i]| ==> m[i][j] <= t
    ensures AllBackground(Threshold(m, t))
  {
  }
}
