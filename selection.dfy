/**
 * The argmax both hill climbs use (src/greedy.hpp, src/treesearch.hpp): the
 * running maximum starts below every score, and a candidate replaces it only
 * when it scores strictly more, so the first of equally scored candidates
 * wins. The starting value `std::numeric_limits<double>::lowest()` is
 * modelled as `NoPick`: every score is a clipped sum, far above it.
 */
module Selection {
  import opened Topology
  import Objective

  datatype Pick = NoPick | Pick(score: real, at: nat)

  /** The running maximum after scanning vals from left to right. */
  function FirstMax(vals: seq<real>): (p: Pick)
    ensures p.NoPick? <==> vals == []
    ensures p.Pick? ==> p.at < |vals| && vals[p.at] == p.score
  {
    if vals == [] then NoPick
    else
      var p := FirstMax(vals[..|vals| - 1]);
      if p.NoPick? || vals[|vals| - 1] > p.score then Pick(vals[|vals| - 1], |vals| - 1) else p
  }

  /** One more candidate: it takes over exactly when nothing was picked or it scores strictly more. */
  lemma FirstMaxSnoc(vals: seq<real>, v: real)
    ensures FirstMax(vals + [v]) ==
      if FirstMax(vals).NoPick? || v > FirstMax(vals).score then Pick(v, |vals|) else FirstMax(vals)
  {
    assert (vals + [v])[..|vals|] == vals;
  }

  /** The picked score is the maximum: no candidate scores more. */
  lemma {:induction false} FirstMaxIsMax(vals: seq<real>, k: nat)
    requires k < |vals|
    ensures FirstMax(vals).Pick? && vals[k] <= FirstMax(vals).score
  {
    if k < |vals| - 1 {
      FirstMaxIsMax(vals[..|vals| - 1], k);
    }
  }

  /** The pick is the first candidate reaching the maximum: every earlier one scores strictly less. */
  lemma {:induction false} FirstMaxIsFirst(vals: seq<real>, k: nat)
    requires FirstMax(vals).Pick? && k < FirstMax(vals).at
    ensures vals[k] < FirstMax(vals).score
  {
    var front := vals[..|vals| - 1];
    if FirstMax(vals) == FirstMax(front) {
      FirstMaxIsFirst(front, k);
    } else if k < |front| {
      FirstMaxIsMax(front, k);
    }
  }

  /** The objective value of each of the first n candidates, in order. */
  function ObjScores(o: Objective.ObjectiveFunction, score: Topo -> Objective.ScoreVectors, cands: seq<Topo>, n: nat): (vals: seq<real>)
    requires n <= |cands|
    ensures |vals| == n
    ensures forall k :: 0 <= k < n ==> vals[k] == Objective.ObjFun(o, score(cands[k]))
  {
    if n == 0 then [] else ObjScores(o, score, cands, n - 1) + [Objective.ObjFun(o, score(cands[n - 1]))]
  }

  /** Scores of the first n candidates do not depend on what follows them. */
  lemma {:induction false} ObjScoresPrefix(o: Objective.ObjectiveFunction, score: Topo -> Objective.ScoreVectors, cands: seq<Topo>, more: seq<Topo>, n: nat)
    requires n <= |cands|
    ensures ObjScores(o, score, cands + more, n) == ObjScores(o, score, cands, n)
  {
    if n > 0 {
      ObjScoresPrefix(o, score, cands, more, n - 1);
      assert (cands + more)[n - 1] == cands[n - 1];
    }
  }
}
