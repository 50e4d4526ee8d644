/**
 * tree_search (src/treesearch.hpp): the older full-recompute NNI hill climb.
 * Each round lists every NNI neighbour of the current tree with the
 * unvalidated nni of src/tree_operations.hpp, scores each by the clipped LQIC
 * sum, and moves to the first best neighbour when it strictly beats the
 * current score; otherwise the search stops.
 *
 * The quartet score computer is the parameter `score`, giving the score
 * vectors of a tree as recomputeScores would. The source loops until no
 * neighbour improves; here at most `fuel` rounds are taken.
 */
module TreeSearch {
  import opened Topology
  import Objective
  import Nni
  import TreeOperations
  import opened Selection

  /** sum_lqic_scores after recomputing the scores for t. */
  function LqicSum(score: Topo -> Objective.ScoreVectors, t: Topo): real
  {
    Objective.ObjFun(Objective.LQIC, score(t))
  }

  /** The trees nni lists for t: both rewirings of every inner edge in ascending order. */
  function Candidates(t: Topo): seq<Topo>
    requires WellFormed(t)
  {
    Nni.NniResults(t, Nni.InnerEdges(t, |t.primary|))
  }

  /** Every listed neighbour is again a well-formed arena. */
  lemma CandidateWellFormed(t: Topo, k: nat)
    requires WellFormed(t) && k < |Candidates(t)|
    ensures WellFormed(Candidates(t)[k])
  {
    Nni.NniResultsWellFormed(t, Nni.InnerEdges(t, |t.primary|), k);
  }

  /** One round: the first best-scoring neighbour, or NoPick when there is none. */
  function Round(score: Topo -> Objective.ScoreVectors, t: Topo): (p: Pick)
    requires WellFormed(t)
    ensures p.Pick? ==> p.at < |Candidates(t)| && p.score == LqicSum(score, Candidates(t)[p.at])
  {
    FirstMax(ObjScores(Objective.LQIC, score, Candidates(t), |Candidates(t)|))
  }

  /** Whether a round moves: its pick strictly beats the current score. */
  predicate Improves(score: Topo -> Objective.ScoreVectors, t: Topo)
    requires WellFormed(t)
  {
    Round(score, t).Pick? && Round(score, t).score > LqicSum(score, t)
  }

  /** Where the climb ends, and whether it stopped because no neighbour improved. */
  datatype Outcome = Outcome(tree: Topo, converged: bool)

  /** The climb from t taking at most fuel rounds. */
  function Climb(score: Topo -> Objective.ScoreVectors, t: Topo, fuel: nat): (r: Outcome)
    requires WellFormed(t)
    ensures WellFormed(r.tree)
    decreases fuel
  {
    if fuel == 0 then Outcome(t, false)
    else if !Improves(score, t) then Outcome(t, true)
    else
      var next := Candidates(t)[Round(score, t).at];
      CandidateWellFormed(t, Round(score, t).at);
      Climb(score, next, fuel - 1)
  }

  /** An improving round moves to the picked neighbour and spends one round of fuel. */
  lemma ClimbMoves(score: Topo -> Objective.ScoreVectors, t: Topo, f: nat)
    requires WellFormed(t) && Improves(score, t)
    ensures WellFormed(Candidates(t)[Round(score, t).at])
    ensures Climb(score, t, f + 1) == Climb(score, Candidates(t)[Round(score, t).at], f)
  {
    CandidateWellFormed(t, Round(score, t).at);

  }

  /** A round picks a best neighbour, and the first one of that score. */
  lemma RoundIsFirstBest(score: Topo -> Objective.ScoreVectors, t: Topo, k: nat)
    requires WellFormed(t) && k < |Candidates(t)|
    ensures Round(score, t).Pick?
    ensures LqicSum(score, Candidates(t)[k]) <= Round(score, t).score
    ensures k < Round(score, t).at ==> LqicSum(score, Candidates(t)[k]) < Round(score, t).score
  {
    var vals := ObjScores(Objective.LQIC, score, Candidates(t), |Candidates(t)|);
    FirstMaxIsMax(vals, k);
    if k < Round(score, t).at {
      FirstMaxIsFirst(vals, k);
    }
  }

  /** The climb ends where it started or strictly higher: every move raises the score. */
  lemma {:induction false} ClimbImproves(score: Topo -> Objective.ScoreVectors, t: Topo, fuel: nat)
    requires WellFormed(t)
    ensures Climb(score, t, fuel).tree == t || LqicSum(score, Climb(score, t, fuel).tree) > LqicSum(score, t)
    decreases fuel
  {
    if fuel > 0 && Improves(score, t) {
      var next := Candidates(t)[Round(score, t).at];
      var f: nat := fuel - 1;
      ClimbMoves(score, t, f);
      assert LqicSum(score, next) > LqicSum(score, t);
      ClimbImproves(score, next, f);
    }
  }

  /** When the climb stops by itself, no neighbour of the final tree scores more: a local optimum. */
  lemma {:induction false} ClimbConverged(score: Topo -> Objective.ScoreVectors, t: Topo, fuel: nat, k: nat)
    requires WellFormed(t) && Climb(score, t, fuel).converged
    ensures k < |Candidates(Climb(score, t, fuel).tree)| ==>
      LqicSum(score, Candidates(Climb(score, t, fuel).tree)[k]) <= LqicSum(score, Climb(score, t, fuel).tree)
    decreases fuel
  {
    if fuel > 0 && Improves(score, t) {
      var next := Candidates(t)[Round(score, t).at];
      var f: nat := fuel - 1;
      ClimbMoves(score, t, f);
      ClimbConverged(score, next, f, k);
    } else if k < |Candidates(t)| {
      RoundIsFirstBest(score, t, k);
    }
  }

  /** Starting from a valid tree, every tree the climb visits is valid. */
  lemma {:induction false} ClimbStaysValid(score: Topo -> Objective.ScoreVectors, t: Topo, fuel: nat)
    requires ValidTopology(t)
    ensures ValidTopology(Climb(score, t, fuel).tree)
    decreases fuel
  {
    if fuel > 0 && Improves(score, t) {
      var next := Candidates(t)[Round(score, t).at];
      var f: nat := fuel - 1;
      ClimbMoves(score, t, f);
      Nni.NniResultsValid(t, Nni.InnerEdges(t, |t.primary|));
      ClimbStaysValid(score, next, f);
    }
  }

  /** The argmax loop of tree_search over the neighbour list, scoring each with sum_lqic_scores. */
  method BestNeighbour(score: Topo -> Objective.ScoreVectors, nb: seq<Topo>) returns (p: Pick)
    ensures p == FirstMax(ObjScores(Objective.LQIC, score, nb, |nb|))
  {
    p := NoPick;
    var i := 0;
    while i < |nb|
      invariant 0 <= i <= |nb|
      invariant p == FirstMax(ObjScores(Objective.LQIC, score, nb, i))
    {
      var sum := Objective.SumLqicScores(score(nb[i]));
      FirstMaxSnoc(ObjScores(Objective.LQIC, score, nb, i), sum);
      if p.NoPick? || sum > p.score {
        p := Pick(sum, i);
      }
      i := i + 1;
    }
  }

  /** One round of tree_search: list the neighbours, pick the first best and move when it beats oldscore. */
  method SearchRound(tnew: Tree, score: Topo -> Objective.ScoreVectors, oldscore: real, ghost rest: nat)
    returns (moved: bool, tnext: Tree, newscore: real)
    requires WellFormed(tnew.Snapshot()) && oldscore == LqicSum(score, tnew.Snapshot())
    ensures !moved ==> Climb(score, tnew.Snapshot(), rest + 1).tree == tnew.Snapshot()
    ensures moved ==> WellFormed(tnext.Snapshot()) && newscore == LqicSum(score, tnext.Snapshot())
    ensures moved ==> Climb(score, tnext.Snapshot(), rest).tree == Climb(score, tnew.Snapshot(), rest + 1).tree
  {
    ghost var t := tnew.Snapshot();
    var nb := TreeOperations.Neighbours(tnew);
    assert nb == Candidates(t);
    var p := BestNeighbour(score, nb);
    assert p == Round(score, t);
    moved := p.Pick? && p.score > oldscore;
    if !moved {
      tnext, newscore := tnew, oldscore;
      return;
    }
    CandidateWellFormed(t, p.at);
    ClimbMoves(score, t, rest);
    tnext := new Tree.FromTopo(nb[p.at]);
    newscore := p.score;
  }

  /** tree_search: works on a copy, so the argument is untouched. */
  method TreeSearch(tree: Tree, score: Topo -> Objective.ScoreVectors, fuel: nat) returns (result: Topo)
    requires WellFormed(tree.Snapshot())
    ensures result == Climb(score, tree.Snapshot(), fuel).tree
  {
    ghost var want := Climb(score, tree.Snapshot(), fuel).tree;
    var tnew := new Tree.Copy(tree);
    var oldscore := Objective.SumLqicScores(score(tnew.Snapshot()));
    var rounds := fuel;
    while rounds > 0
      invariant WellFormed(tnew.Snapshot()) && oldscore == LqicSum(score, tnew.Snapshot())
      invariant Climb(score, tnew.Snapshot(), rounds).tree == want
      decreases rounds
    {
      var rest := rounds - 1;
      var moved, tnext, newscore := SearchRound(tnew, score, oldscore, rest);
      if !moved {
        break;
      }
      tnew, oldscore, rounds := tnext, newscore, rest;
    }
    result := tnew.Snapshot();
  }
}
