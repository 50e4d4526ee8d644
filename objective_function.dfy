/**
 * The objective table (src/objective_function.hpp): the three per-edge score
 * vectors of the quartet score computer, the range-filtered sums that serve as
 * objective values, and the per-objective lookup of which vector to read and
 * write and which moves to restrict.
 *
 * Scores are modelled as reals: the double rounding of the running sum and
 * NaN entries are not modelled.
 */
module Objective {
  import opened Topology
  import Nni

  datatype ObjectiveFunction = LQIC | QPIC | EQPIC

  /** The three score vectors the score computer holds, one entry per edge. */
  datatype ScoreVectors = ScoreVectors(lqic: seq<real>, qpic: seq<real>, eqpic: seq<real>)

  /** An entry counts towards the objective only when it lies in [-1, 1]. */
  predicate InRange(v: real)
  {
    -1.0 <= v <= 1.0
  }

  /** The sum of the entries in [-1, 1]; it is bounded by the number of entries. */
  function ClippedSum(s: seq<real>): (r: real)
    ensures -(|s| as real) <= r <= |s| as real
  {
    if s == [] then 0.0
    else ClippedSum(s[..|s| - 1]) + (if InRange(s[|s| - 1]) then s[|s| - 1] else 0.0)
  }

  /** The plain sum of a sequence, the reference for ClippedSum. */
  function Sum(s: seq<real>): real
  {
    if s == [] then 0.0 else Sum(s[..|s| - 1]) + s[|s| - 1]
  }

  /** The entries of s in [-1, 1], in order. */
  function KeepInRange(s: seq<real>): (r: seq<real>)
    ensures forall k :: 0 <= k < |r| ==> InRange(r[k])
    ensures |r| <= |s|
  {
    if s == [] then []
    else KeepInRange(s[..|s| - 1]) + (if InRange(s[|s| - 1]) then [s[|s| - 1]] else [])
  }

  lemma {:induction false} SumAppend(s: seq<real>, t: seq<real>)
    ensures Sum(s + t) == Sum(s) + Sum(t)
    decreases |t|
  {
    if t != [] {
      assert (s + t)[..|s + t| - 1] == s + t[..|t| - 1];
      SumAppend(s, t[..|t| - 1]);
    } else {
      assert s + t == s;
    }
  }

  /** The clipped sum adds exactly the in-range entries and ignores all others. */
  lemma {:induction false} ClippedSumKeepsInRange(s: seq<real>)
    ensures ClippedSum(s) == Sum(KeepInRange(s))
    decreases |s|
  {
    if s != [] {
      var front, last := s[..|s| - 1], s[|s| - 1];
      ClippedSumKeepsInRange(front);
      SumAppend(KeepInRange(front), if InRange(last) then [last] else []);
      assert Sum([last]) == Sum([]) + last;
    }
  }

  /** When every entry lies in [-1, 1], the clipped sum is the plain sum. */
  lemma {:induction false} ClippedSumAllInRange(s: seq<real>)
    requires forall k :: 0 <= k < |s| ==> InRange(s[k])
    ensures ClippedSum(s) == Sum(s)
    decreases |s|
  {
    if s != [] {
      ClippedSumAllInRange(s[..|s| - 1]);
    }
  }

  /** Changing an out-of-range entry to another out-of-range value leaves the sum unchanged. */
  lemma {:induction false} ClippedSumIgnoresOutOfRange(s: seq<real>, k: nat, v: real)
    requires k < |s| && !InRange(s[k]) && !InRange(v)
    ensures ClippedSum(s[k := v]) == ClippedSum(s)
    decreases |s|
  {
    if k < |s| - 1 {
      assert s[k := v][..|s| - 1] == s[..|s| - 1][k := v];
      ClippedSumIgnoresOutOfRange(s[..|s| - 1], k, v);
    } else {
      assert s[k := v][..|s| - 1] == s[..|s| - 1];
    }
  }

  /** The accumulation loop shared by sum_lqic_scores, sum_qpic_scores and sum_eqpic_scores. */
  method SumInRange(v: seq<real>) returns (sum: real)
    ensures sum == ClippedSum(v)
  {
    sum := 0.0;
    var j := 0;
    while j < |v|
      invariant 0 <= j <= |v|
      invariant sum == ClippedSum(v[..j])
    {
      assert v[..j + 1][..j] == v[..j];
      if v[j] <= 1.0 && v[j] >= -1.0 {
        sum := sum + v[j];
      }
      j := j + 1;
    }
    assert v[..j] == v;
  }

  method SumLqicScores(sc: ScoreVectors) returns (sum: real)
    ensures sum == ClippedSum(sc.lqic)
  {
    sum := SumInRange(sc.lqic);
  }

  method SumQpicScores(sc: ScoreVectors) returns (sum: real)
    ensures sum == ClippedSum(sc.qpic)
  {
    sum := SumInRange(sc.qpic);
  }

  method SumEqpicScores(sc: ScoreVectors) returns (sum: real)
    ensures sum == ClippedSum(sc.eqpic)
  {
    sum := SumInRange(sc.eqpic);
  }

  // ------------------------------------------------------------------
  // The Functions dispatch table, one selector per objective.
  // ------------------------------------------------------------------

  /** getScores: the objective's own score vector. */
  function GetScores(o: ObjectiveFunction, sc: ScoreVectors): (r: seq<real>)
    ensures r == sc.lqic || r == sc.qpic || r == sc.eqpic
  {
    match o
    case LQIC => sc.lqic
    case QPIC => sc.qpic
    case EQPIC => sc.eqpic
  }

  /** setScore: overwrite entry e of the objective's own vector. */
  function SetScore(o: ObjectiveFunction, sc: ScoreVectors, e: nat, val: real): (r: ScoreVectors)
    requires e < |GetScores(o, sc)|
    ensures |GetScores(o, r)| == |GetScores(o, sc)|
  {
    match o
    case LQIC => sc.(lqic := sc.lqic[e := val])
    case QPIC => sc.(qpic := sc.qpic[e := val])
    case EQPIC => sc.(eqpic := sc.eqpic[e := val])
  }

  /** obj_fun: the clipped sum of the objective's own vector. */
  function ObjFun(o: ObjectiveFunction, sc: ScoreVectors): (r: real)
    ensures -(|GetScores(o, sc)| as real) <= r <= |GetScores(o, sc)| as real
  {
    ClippedSum(GetScores(o, sc))
  }

  /** The obj_fun entry of the table: the summing routine of the chosen objective. */
  method ObjFunOf(o: ObjectiveFunction, sc: ScoreVectors) returns (r: real)
    ensures r == ObjFun(o, sc)
  {
    match o
    case LQIC => r := SumLqicScores(sc);
    case QPIC => r := SumQpicScores(sc);
    case EQPIC => r := SumEqpicScores(sc);
  }

  /** nni_restrict_edge: only LQIC restricts, and only edges with a positive score. */
  predicate NniRestrictEdge(o: ObjectiveFunction, sc: ScoreVectors, e: nat, restricted: bool)
    requires o.LQIC? && restricted ==> e < |sc.lqic|
    ensures NniRestrictEdge(o, sc, e, restricted) ==> o.LQIC? && restricted
  {
    o.LQIC? && restricted && sc.lqic[e] > 0.0
  }

  /**
   * spr_restrict_edgepair: only LQIC restricts, and only pairs whose path has
   * no negative score; the path test is a parameter.
   */
  predicate SprRestrictEdgePair(o: ObjectiveFunction, restricted: bool, negativeOnPath: bool)
    ensures SprRestrictEdgePair(o, restricted, negativeOnPath) ==> o.LQIC? && restricted
  {
    o.LQIC? && restricted && !negativeOnPath
  }

  /** Reading back a written entry gives the written value; the rest of every vector is kept. */
  lemma GetSetScore(o: ObjectiveFunction, o': ObjectiveFunction, sc: ScoreVectors, e: nat, val: real)
    requires e < |GetScores(o, sc)|
    ensures GetScores(o, SetScore(o, sc, e, val)) == GetScores(o, sc)[e := val]
    ensures o' != o ==> GetScores(o', SetScore(o, sc, e, val)) == GetScores(o', sc)
  {
  }

  /** QPIC and EQPIC never restrict a move; unrestricted searches never restrict either. */
  lemma RestrictOnlyLqic(o: ObjectiveFunction, sc: ScoreVectors, e: nat, restricted: bool, negativeOnPath: bool)
    requires o.LQIC? && restricted ==> e < |sc.lqic|
    ensures NniRestrictEdge(o, sc, e, restricted) ==> o.LQIC? && restricted
    ensures SprRestrictEdgePair(o, restricted, negativeOnPath) ==> o.LQIC? && restricted
  {
  }

  /**
   * Under the restricted LQIC objective, the inner edges an NNI search may
   * try are exactly the edges nni_only_negative_lqic expands.
   */
  lemma RestrictedNniEdges(t: Topo, sc: ScoreVectors, e: nat)
    requires WellFormed(t) && |t.primary| <= |sc.lqic| && e < |t.primary|
    ensures e in Nni.NonPositiveInnerEdges(t, sc.lqic, |t.primary|)
        <==> IsInnerEdge(t, e) && !NniRestrictEdge(LQIC, sc, e, true)
  {
    Nni.NonPositiveInnerEdgesExact(t, sc.lqic, |t.primary|, e);
  }
}
