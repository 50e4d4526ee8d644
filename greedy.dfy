/**
 * The greedy drivers of src/greedy.hpp.
 *
 * treesearch_nni climbs by NNI: each round tries nni_a and nni_b on every
 * inner edge the objective does not restrict, keeps the first best-scoring
 * neighbour and moves there when it strictly beats the current score.
 * treesearch_combo alternates an SPR pass, which commits the first offered
 * move in row-major order that beats the running maximum, with an NNI climb
 * from the tree that move gave.
 *
 * The quartet score computer is the parameter `score`, giving the score
 * vectors recomputeScores would produce for a tree; the incremental score
 * updates that follow each move are modelled as exact. The genesis `spr`
 * move and has_negative_lqic_on_spr_path are parameters too. Both while
 * (true) loops take at most `fuel` rounds.
 */
module Greedy {
  import opened Topology
  import Objective
  import Nni
  import Spr
  import opened Selection
  import TreeSearch

  /** recomputeScores gives an LQIC entry for every edge of the tree. */
  ghost predicate ScoresFitEdges(score: Topo -> Objective.ScoreVectors)
  {
    forall t: Topo :: |t.primary| <= |score(t).lqic|
  }

  // ------------------------------------------------------------------
  // treesearch_nni
  // ------------------------------------------------------------------

  /** The edges below n that nni_restrict_edge lets through, gathered edge by edge. */
  function Unrestricted(o: Objective.ObjectiveFunction, sc: Objective.ScoreVectors, restricted: bool, n: nat): set<nat>
    requires n <= |sc.lqic|
  {
    if n == 0 then {}
    else Unrestricted(o, sc, restricted, n - 1) + (if Objective.NniRestrictEdge(o, sc, n - 1, restricted) then {} else {n - 1})
  }

  /** Edge e is let through exactly when it lies below n and nni_restrict_edge does not hold for it. */
  lemma {:induction false} UnrestrictedExact(o: Objective.ObjectiveFunction, sc: Objective.ScoreVectors, restricted: bool, n: nat, e: nat)
    requires n <= |sc.lqic|
    ensures e in Unrestricted(o, sc, restricted, n) <==> e < n && !Objective.NniRestrictEdge(o, sc, e, restricted)
  {
    if n > 0 {
      UnrestrictedExact(o, sc, restricted, n - 1, e);
    }
  }

  /** The edges a round tries, in ascending order: inner and not restricted. */
  function Tried(o: Objective.ObjectiveFunction, score: Topo -> Objective.ScoreVectors, restricted: bool, t: Topo): seq<nat>
    requires WellFormed(t) && ScoresFitEdges(score)
  {
    Nni.SelectedInnerEdges(t, Unrestricted(o, score(t), restricted, |t.primary|), |t.primary|)
  }

  /** An edge is tried exactly when its two end nodes are inner and the objective does not restrict it. */
  lemma TriedExact(o: Objective.ObjectiveFunction, score: Topo -> Objective.ScoreVectors, restricted: bool, t: Topo, e: nat)
    requires WellFormed(t) && ScoresFitEdges(score) && e < |t.primary|
    ensures e in Tried(o, score, restricted, t) <==>
      IsInnerEdge(t, e) && !Objective.NniRestrictEdge(o, score(t), e, restricted)
  {
    Nni.SelectedInnerEdgesExact(t, Unrestricted(o, score(t), restricted, |t.primary|), |t.primary|, e);
    UnrestrictedExact(o, score(t), restricted, |t.primary|, e);
  }

  /** The trees a round scores: nni_a then nni_b of each tried edge, in edge order. */
  function Candidates(o: Objective.ObjectiveFunction, score: Topo -> Objective.ScoreVectors, restricted: bool, t: Topo): seq<Topo>
    requires WellFormed(t) && ScoresFitEdges(score)
  {
    Nni.NniResults(t, Tried(o, score, restricted, t))
  }

  lemma CandidateWellFormed(o: Objective.ObjectiveFunction, score: Topo -> Objective.ScoreVectors, restricted: bool, t: Topo, k: nat)
    requires WellFormed(t) && ScoresFitEdges(score) && k < |Candidates(o, score, restricted, t)|
    ensures WellFormed(Candidates(o, score, restricted, t)[k])
  {
    Nni.NniResultsWellFormed(t, Tried(o, score, restricted, t), k);
  }

  /** The objective value after recomputing the scores of t. */
  function Value(o: Objective.ObjectiveFunction, score: Topo -> Objective.ScoreVectors, t: Topo): real
  {
    Objective.ObjFun(o, score(t))
  }

  /** One round: the first best-scoring candidate, or NoPick when no edge was tried. */
  function Round(o: Objective.ObjectiveFunction, score: Topo -> Objective.ScoreVectors, restricted: bool, t: Topo): (p: Pick)
    requires WellFormed(t) && ScoresFitEdges(score)
    ensures p.Pick? ==>
      p.at < |Candidates(o, score, restricted, t)| && p.score == Value(o, score, Candidates(o, score, restricted, t)[p.at])
  {
    var cands := Candidates(o, score, restricted, t);
    FirstMax(ObjScores(o, score, cands, |cands|))
  }

  /** Whether a round moves: its pick strictly beats oldscore. */
  predicate Improves(o: Objective.ObjectiveFunction, score: Topo -> Objective.ScoreVectors, restricted: bool, t: Topo)
    requires WellFormed(t) && ScoresFitEdges(score)
  {
    Round(o, score, restricted, t).Pick? && Round(o, score, restricted, t).score > Value(o, score, t)
  }

  /** The NNI climb from t taking at most fuel rounds. */
  function Climb(o: Objective.ObjectiveFunction, score: Topo -> Objective.ScoreVectors, restricted: bool, t: Topo, fuel: nat): (r: TreeSearch.Outcome)
    requires WellFormed(t) && ScoresFitEdges(score)
    ensures WellFormed(r.tree)
    decreases fuel
  {
    if fuel == 0 then TreeSearch.Outcome(t, false)
    else if !Improves(o, score, restricted, t) then TreeSearch.Outcome(t, true)
    else
      var next := Candidates(o, score, restricted, t)[Round(o, score, restricted, t).at];
      CandidateWellFormed(o, score, restricted, t, Round(o, score, restricted, t).at);
      Climb(o, score, restricted, next, fuel - 1)
  }

  /** An improving round moves to the picked candidate and spends one round of fuel. */
  lemma ClimbMoves(o: Objective.ObjectiveFunction, score: Topo -> Objective.ScoreVectors, restricted: bool, t: Topo, f: nat)
    requires WellFormed(t) && ScoresFitEdges(score) && Improves(o, score, restricted, t)
    ensures WellFormed(Candidates(o, score, restricted, t)[Round(o, score, restricted, t).at])
    ensures Climb(o, score, restricted, t, f + 1)
      == Climb(o, score, restricted, Candidates(o, score, restricted, t)[Round(o, score, restricted, t).at], f)
  {
    CandidateWellFormed(o, score, restricted, t, Round(o, score, restricted, t).at);
  }

  /** A round picks a best candidate, and the first one of that score. */
  lemma RoundIsFirstBest(o: Objective.ObjectiveFunction, score: Topo -> Objective.ScoreVectors, restricted: bool, t: Topo, k: nat)
    requires WellFormed(t) && ScoresFitEdges(score) && k < |Candidates(o, score, restricted, t)|
    ensures Round(o, score, restricted, t).Pick?
    ensures Value(o, score, Candidates(o, score, restricted, t)[k]) <= Round(o, score, restricted, t).score
    ensures k < Round(o, score, restricted, t).at ==>
      Value(o, score, Candidates(o, score, restricted, t)[k]) < Round(o, score, restricted, t).score
  {
    var cands := Candidates(o, score, restricted, t);
    var vals := ObjScores(o, score, cands, |cands|);
    FirstMaxIsMax(vals, k);
    if k < Round(o, score, restricted, t).at {
      FirstMaxIsFirst(vals, k);
    }
  }

  /** The climb ends where it started or strictly higher: oldscore strictly increases with every move. */
  lemma {:induction false} ClimbImproves(o: Objective.ObjectiveFunction, score: Topo -> Objective.ScoreVectors, restricted: bool, t: Topo, fuel: nat)
    requires WellFormed(t) && ScoresFitEdges(score)
    ensures Climb(o, score, restricted, t, fuel).tree == t
      || Value(o, score, Climb(o, score, restricted, t, fuel).tree) > Value(o, score, t)
    decreases fuel
  {
    if fuel > 0 && Improves(o, score, restricted, t) {
      var next := Candidates(o, score, restricted, t)[Round(o, score, restricted, t).at];
      var f: nat := fuel - 1;
      ClimbMoves(o, score, restricted, t, f);
      assert Value(o, score, next) > Value(o, score, t);
      ClimbImproves(o, score, restricted, next, f);
    }
  }

  /** When the climb stops by itself, no tried neighbour of the final tree scores more. */
  lemma {:induction false} ClimbConverged(o: Objective.ObjectiveFunction, score: Topo -> Objective.ScoreVectors, restricted: bool, t: Topo, fuel: nat, k: nat)
    requires WellFormed(t) && ScoresFitEdges(score) && Climb(o, score, restricted, t, fuel).converged
    ensures k < |Candidates(o, score, restricted, Climb(o, score, restricted, t, fuel).tree)| ==>
      Value(o, score, Candidates(o, score, restricted, Climb(o, score, restricted, t, fuel).tree)[k])
        <= Value(o, score, Climb(o, score, restricted, t, fuel).tree)
    decreases fuel
  {
    if fuel > 0 && Improves(o, score, restricted, t) {
      var next := Candidates(o, score, restricted, t)[Round(o, score, restricted, t).at];
      var f: nat := fuel - 1;
      ClimbMoves(o, score, restricted, t, f);
      ClimbConverged(o, score, restricted, next, f, k);
    } else if k < |Candidates(o, score, restricted, t)| {
      RoundIsFirstBest(o, score, restricted, t, k);
    }
  }

  /** Starting from a valid tree, every tree the climb visits is valid. */
  lemma {:induction false} ClimbStaysValid(o: Objective.ObjectiveFunction, score: Topo -> Objective.ScoreVectors, restricted: bool, t: Topo, fuel: nat)
    requires ValidTopology(t) && ScoresFitEdges(score)
    ensures ValidTopology(Climb(o, score, restricted, t, fuel).tree)
    decreases fuel
  {
    if fuel > 0 && Improves(o, score, restricted, t) {
      var next := Candidates(o, score, restricted, t)[Round(o, score, restricted, t).at];
      var f: nat := fuel - 1;
      ClimbMoves(o, score, restricted, t, f);
      Nni.NniResultsValid(t, Tried(o, score, restricted, t));
      ClimbStaysValid(o, score, restricted, next, f);
    }
  }

  /**
   * Without restriction and with the LQIC objective, treesearch_nni takes the
   * same steps as tree_search of src/treesearch.hpp.
   */
  lemma {:induction false} UnrestrictedLqicIsTreeSearch(score: Topo -> Objective.ScoreVectors, t: Topo, fuel: nat)
    requires WellFormed(t) && ScoresFitEdges(score)
    ensures Climb(Objective.LQIC, score, false, t, fuel) == TreeSearch.Climb(score, t, fuel)
    decreases fuel
  {
    var keep := Unrestricted(Objective.LQIC, score(t), false, |t.primary|);
    forall e: nat | e < |t.primary|
      ensures e in keep
    {
      UnrestrictedExact(Objective.LQIC, score(t), false, |t.primary|, e);
    }
    Nni.SelectedAllInner(t, keep, |t.primary|);
    assert Candidates(Objective.LQIC, score, false, t) == TreeSearch.Candidates(t);
    if fuel > 0 && Improves(Objective.LQIC, score, false, t) {
      var next := Candidates(Objective.LQIC, score, false, t)[Round(Objective.LQIC, score, false, t).at];
      var f: nat := fuel - 1;
      ClimbMoves(Objective.LQIC, score, false, t, f);
      TreeSearch.ClimbMoves(score, t, f);
      UnrestrictedLqicIsTreeSearch(score, next, f);
    }
  }

  // ----- the round as the source runs it: in place, with undo -----

  /** Whether the round tries edge i of t. */
  predicate TriedEdge(o: Objective.ObjectiveFunction, score: Topo -> Objective.ScoreVectors, restricted: bool, t: Topo, i: nat)
    requires WellFormed(t) && ScoresFitEdges(score) && i < |t.primary|
  {
    IsInnerEdge(t, i) && !Objective.NniRestrictEdge(o, score(t), i, restricted)
  }

  /** The candidates a round has scored before reaching edge i. */
  function Scored(o: Objective.ObjectiveFunction, score: Topo -> Objective.ScoreVectors, restricted: bool, t: Topo, i: nat): seq<Topo>
    requires WellFormed(t) && ScoresFitEdges(score) && i <= |t.primary|
  {
    Nni.NniResults(t, Nni.SelectedInnerEdges(t, Unrestricted(o, score(t), restricted, |t.primary|), i))
  }

  /** The state of the edge loop: the running maximum, its tree and the number of candidates scored. */
  datatype Scan = Scan(pick: Pick, best: Topo, count: nat)

  /** Scoring one more candidate x: it becomes the running maximum only when it beats it strictly. */
  function Consider(o: Objective.ObjectiveFunction, score: Topo -> Objective.ScoreVectors, s: Scan, x: Topo): Scan
  {
    var v := Value(o, score, x);
    if s.pick.NoPick? || v > s.pick.score then Scan(Pick(v, s.count), x, s.count + 1) else Scan(s.pick, s.best, s.count + 1)
  }

  /** Consider with the value of x computed beforehand. */
  lemma ConsiderCases(o: Objective.ObjectiveFunction, score: Topo -> Objective.ScoreVectors, s: Scan, x: Topo, v: real)
    requires v == Value(o, score, x)
    ensures Consider(o, score, s, x) ==
      if s.pick.NoPick? || v > s.pick.score then Scan(Pick(v, s.count), x, s.count + 1) else Scan(s.pick, s.best, s.count + 1)
  {
  }

  /**
   * The edge loop of a round on t, edge by edge up to edge i: each tried
   * edge offers its nni_a tree and then its nni_b tree to the running maximum.
   */
  function ScanAt(o: Objective.ObjectiveFunction, score: Topo -> Objective.ScoreVectors, restricted: bool, t: Topo, i: nat): Scan
    requires WellFormed(t) && ScoresFitEdges(score) && i <= |t.primary|
  {
    if i == 0 then Scan(NoPick, t, 0)
    else
      var s := ScanAt(o, score, restricted, t, i - 1);
      if TriedEdge(o, score, restricted, t, i - 1)
      then Consider(o, score, Consider(o, score, s, Nni.NniA(t, i - 1)), Nni.NniB(t, i - 1))
      else s
  }

  /** Scan s is the first best of the scored candidates c, with a copy of its tree. */
  predicate ScanMatches(o: Objective.ObjectiveFunction, score: Topo -> Objective.ScoreVectors, s: Scan, c: seq<Topo>)
  {
    && s.count == |c|
    && s.pick == FirstMax(ObjScores(o, score, c, |c|))
    && (s.pick.Pick? ==> s.pick.at < s.count && s.best == c[s.pick.at])
  }

  /** The edge loop keeps the first best of the candidates scored so far, and a copy of its tree. */
  lemma {:induction false} ScanAtIsFirstMax(o: Objective.ObjectiveFunction, score: Topo -> Objective.ScoreVectors, restricted: bool,
                                            t: Topo, i: nat)
    requires WellFormed(t) && ScoresFitEdges(score) && i <= |t.primary|
    ensures ScanMatches(o, score, ScanAt(o, score, restricted, t, i), Scored(o, score, restricted, t, i))
  {
    if i > 0 {
      var j: nat := i - 1;
      ScanAtIsFirstMax(o, score, restricted, t, j);
      ScanStep(o, score, restricted, t, j);
    }
  }

  /** One edge further, the edge loop still matches the scored candidates. */
  lemma ScanStep(o: Objective.ObjectiveFunction, score: Topo -> Objective.ScoreVectors, restricted: bool, t: Topo, j: nat)
    requires WellFormed(t) && ScoresFitEdges(score) && j < |t.primary|
    requires ScanMatches(o, score, ScanAt(o, score, restricted, t, j), Scored(o, score, restricted, t, j))
    ensures ScanMatches(o, score, ScanAt(o, score, restricted, t, j + 1), Scored(o, score, restricted, t, j + 1))
  {
    ScoredStep(o, score, restricted, t, j);
    var s := ScanAt(o, score, restricted, t, j);
    if TriedEdge(o, score, restricted, t, j) {
      var a, b := Nni.NniA(t, j), Nni.NniB(t, j);
      assert ScanAt(o, score, restricted, t, j + 1) == Consider(o, score, Consider(o, score, s, a), b);
      ConsiderTwo(o, score, Scored(o, score, restricted, t, j), a, b, s);
    } else {
      assert ScanAt(o, score, restricted, t, j + 1) == s;
    }
  }

  /** Reaching edge i adds its two trees exactly when the round tries it. */
  lemma ScoredStep(o: Objective.ObjectiveFunction, score: Topo -> Objective.ScoreVectors, restricted: bool, t: Topo, i: nat)
    requires WellFormed(t) && ScoresFitEdges(score) && i < |t.primary|
    ensures TriedEdge(o, score, restricted, t, i) ==>
      Scored(o, score, restricted, t, i + 1) == Scored(o, score, restricted, t, i) + [Nni.NniA(t, i), Nni.NniB(t, i)]
    ensures !TriedEdge(o, score, restricted, t, i) ==>
      Scored(o, score, restricted, t, i + 1) == Scored(o, score, restricted, t, i)
  {
    var keep := Unrestricted(o, score(t), restricted, |t.primary|);
    var es := Nni.SelectedInnerEdges(t, keep, i);
    UnrestrictedExact(o, score(t), restricted, |t.primary|, i);
    if TriedEdge(o, score, restricted, t, i) {
      assert Nni.SelectedInnerEdges(t, keep, i + 1) == es + [i];
      Nni.NniResultsSnoc(t, es, i);
    } else {
      assert Nni.SelectedInnerEdges(t, keep, i + 1) == es;
    }
  }

  /** Scoring two more candidates updates the running maximum one candidate at a time. */
  lemma PickTwoMore(o: Objective.ObjectiveFunction, score: Topo -> Objective.ScoreVectors, c: seq<Topo>, a: Topo, b: Topo)
    ensures FirstMax(ObjScores(o, score, c + [a, b], |c| + 2)) ==
      var p0 := FirstMax(ObjScores(o, score, c, |c|));
      var p1 := if p0.NoPick? || Value(o, score, a) > p0.score then Pick(Value(o, score, a), |c|) else p0;
      if p1.NoPick? || Value(o, score, b) > p1.score then Pick(Value(o, score, b), |c| + 1) else p1
  {
    var vs := ObjScores(o, score, c, |c|);
    ObjScoresPrefix(o, score, c, [a, b], |c|);
    assert ObjScores(o, score, c + [a, b], |c| + 2) == vs + [Value(o, score, a)] + [Value(o, score, b)];
    FirstMaxSnoc(vs, Value(o, score, a));
    FirstMaxSnoc(vs + [Value(o, score, a)], Value(o, score, b));
  }

  /** Offering two more candidates a and b to a scan that matches c gives a scan that matches c + [a, b]. */
  lemma ConsiderTwo(o: Objective.ObjectiveFunction, score: Topo -> Objective.ScoreVectors, c: seq<Topo>, a: Topo, b: Topo, s: Scan)
    requires ScanMatches(o, score, s, c)
    ensures ScanMatches(o, score, Consider(o, score, Consider(o, score, s, a), b), c + [a, b])
  {
    PickTwoMore(o, score, c, a, b);
    var s2 := Consider(o, score, Consider(o, score, s, a), b);
    var c' := c + [a, b];
    if s2.pick.Pick? {
      if s2.pick.at == |c| + 1 {
        assert s2.best == c'[|c| + 1];
      } else if s2.pick.at == |c| {
        assert s2.best == c'[|c|];
      } else {
        assert s2.best == c[s2.pick.at] == c'[s2.pick.at];
      }
    }
  }

  /** Applying nni_a (or nni_b) to an inner edge twice gives t back: what lets the round undo each move in place. */
  ghost predicate NniUndoes(t: Topo)
    requires WellFormed(t)
  {
    && (forall e: nat {:trigger Nni.NniA(Nni.NniA(t, e), e)} :: e < |t.primary| && IsInnerEdge(t, e) ==>
          e < |Nni.NniA(t, e).primary| && Nni.NniA(Nni.NniA(t, e), e) == t)
    && (forall e: nat {:trigger Nni.NniB(Nni.NniB(t, e), e)} :: e < |t.primary| && IsInnerEdge(t, e) ==>
          e < |Nni.NniB(t, e).primary| && Nni.NniB(Nni.NniB(t, e), e) == t)
  }

  /** Every valid tree lets the round undo its moves. */
  lemma ValidNniUndoes(t: Topo)
    requires ValidTopology(t)
    ensures NniUndoes(t)
  {
    forall e: nat | e < |t.primary| && IsInnerEdge(t, e)
      ensures e < |Nni.NniA(t, e).primary| && Nni.NniA(Nni.NniA(t, e), e) == t
      ensures e < |Nni.NniB(t, e).primary| && Nni.NniB(Nni.NniB(t, e), e) == t
    {
      Nni.NniATwice(t, e);
      Nni.NniBTwice(t, e);
    }
  }

  /** Apply nni_a (or nni_b) to edge i, score the result against the running maximum, and undo the move. */
  method TryMove(tnew: Tree, o: Objective.ObjectiveFunction, score: Topo -> Objective.ScoreVectors, i: nat, ghost t: Topo,
                 useB: bool, ghost x: Topo, s: Scan)
    returns (s': Scan)
    requires WellFormed(t) && NniUndoes(t) && tnew.Snapshot() == t && i < |t.primary| && IsInnerEdge(t, i)
    requires x == if useB then Nni.NniB(t, i) else Nni.NniA(t, i)
    modifies tnew
    ensures tnew.Snapshot() == t
    ensures s' == Consider(o, score, s, x)
  {
    if useB {
      Nni.NniBInPlace(tnew, i);
    } else {
      Nni.NniAInPlace(tnew, i);
    }
    var sum := Objective.ObjFunOf(o, score(tnew.Snapshot()));
    assert tnew.Snapshot() == x;
    ConsiderCases(o, score, s, x, sum);
    s' := Scan(s.pick, s.best, s.count + 1);
    if s.pick.NoPick? || sum > s.pick.score {
      s' := Scan(Pick(sum, s.count), tnew.Snapshot(), s.count + 1);
    }
    if useB {
      Nni.NniBInPlace(tnew, i);
    } else {
      Nni.NniAInPlace(tnew, i);
    }
  }

  /**
   * One pass of the edge loop of treesearch_nni: when edge i is tried, apply
   * nni_a, score, undo by applying it again, then the same with nni_b; the
   * tree is back as it was afterwards.
   */
  method TryEdge(tnew: Tree, o: Objective.ObjectiveFunction, score: Topo -> Objective.ScoreVectors, restricted: bool,
                 i: nat, ghost t: Topo, s: Scan)
    returns (s': Scan, i': nat)
    requires WellFormed(t) && NniUndoes(t) && ScoresFitEdges(score) && tnew.Snapshot() == t && i < |t.primary|
    requires s == ScanAt(o, score, restricted, t, i)
    modifies tnew
    ensures tnew.Snapshot() == t && i' <= |t.primary|
    ensures s' == ScanAt(o, score, restricted, t, i')
    ensures i' == i + 1
  {
    i' := i + 1;
    if !IsInnerEdge(tnew.Snapshot(), i) || Objective.NniRestrictEdge(o, score(tnew.Snapshot()), i, restricted) {
      assert !TriedEdge(o, score, restricted, t, i);
      return s, i';
    }
    assert TriedEdge(o, score, restricted, t, i);
    var s1 := TryMove(tnew, o, score, i, t, false, Nni.NniA(t, i), s);
    s' := TryMove(tnew, o, score, i, t, true, Nni.NniB(t, i), s1);
    assert s' == Consider(o, score, Consider(o, score, s, Nni.NniA(t, i)), Nni.NniB(t, i));
  }

  /** One round of treesearch_nni: the first best candidate and a copy of its tree; the tree itself is left as it was. */
  method NniRound(tnew: Tree, o: Objective.ObjectiveFunction, score: Topo -> Objective.ScoreVectors, restricted: bool)
    returns (p: Pick, best: Topo)
    requires ValidTopology(tnew.Snapshot()) && ScoresFitEdges(score)
    modifies tnew
    ensures tnew.Snapshot() == old(tnew.Snapshot())
    ensures p == Round(o, score, restricted, tnew.Snapshot())
    ensures p.Pick? ==> best == Candidates(o, score, restricted, tnew.Snapshot())[p.at]
  {
    ghost var t := tnew.Snapshot();
    ValidNniUndoes(t);
    var s := EdgeLoop(tnew, o, score, restricted, t);
    ScanAtIsFirstMax(o, score, restricted, t, |t.primary|);
    ScoredAll(o, score, restricted, t, |t.primary|);
    p, best := s.pick, s.best;
  }

  /** The edge loop: every edge in ascending order, each tried one scored twice and restored. */
  method EdgeLoop(tnew: Tree, o: Objective.ObjectiveFunction, score: Topo -> Objective.ScoreVectors, restricted: bool, ghost t: Topo)
    returns (s: Scan)
    requires WellFormed(t) && NniUndoes(t) && ScoresFitEdges(score) && tnew.Snapshot() == t
    modifies tnew
    ensures tnew.Snapshot() == t
    ensures s == ScanAt(o, score, restricted, t, |t.primary|)
  {
    s := Scan(NoPick, tnew.Snapshot(), 0);
    var m := |tnew.primary|;
    var i: nat := 0;
    while i < m
      invariant tnew.Snapshot() == t && i <= |t.primary|
      invariant s == ScanAt(o, score, restricted, t, i)
      invariant m == |t.primary|
    {
      s, i := TryEdge(tnew, o, score, restricted, i, t, s);
    }
  }

  /** Past the last edge, the scored list is the whole candidate list and its first maximum is the round's pick. */
  lemma ScoredAll(o: Objective.ObjectiveFunction, score: Topo -> Objective.ScoreVectors, restricted: bool, t: Topo, i: nat)
    requires WellFormed(t) && ScoresFitEdges(score) && i == |t.primary|
    ensures Scored(o, score, restricted, t, i) == Candidates(o, score, restricted, t)
    ensures FirstMax(ObjScores(o, score, Scored(o, score, restricted, t, i), |Scored(o, score, restricted, t, i)|)) ==
      Round(o, score, restricted, t)
  {
  }

  /** One pass of the while loop of treesearch_nni: a round, then the commit when its best strictly beats oldscore. */
  method NniStep(tnew: Tree, o: Objective.ObjectiveFunction, score: Topo -> Objective.ScoreVectors, restricted: bool,
                 oldscore: real, ghost rest: nat)
    returns (moved: bool, newscore: real)
    requires ValidTopology(tnew.Snapshot()) && ScoresFitEdges(score) && oldscore == Value(o, score, tnew.Snapshot())
    modifies tnew
    ensures ValidTopology(tnew.Snapshot())
    ensures !moved ==>
      tnew.Snapshot() == old(tnew.Snapshot()) && Climb(o, score, restricted, old(tnew.Snapshot()), rest + 1).tree == old(tnew.Snapshot())
    ensures moved ==> newscore == Value(o, score, tnew.Snapshot()) && newscore > oldscore
    ensures moved ==>
      Climb(o, score, restricted, tnew.Snapshot(), rest).tree == Climb(o, score, restricted, old(tnew.Snapshot()), rest + 1).tree
  {
    ghost var t := tnew.Snapshot();
    var p, best := NniRound(tnew, o, score, restricted);
    moved := p.Pick? && p.score > oldscore;
    if !moved {
      return false, oldscore;
    }
    ClimbMoves(o, score, restricted, t, rest);
    Nni.NniResultsValid(t, Tried(o, score, restricted, t));
    tnew.Assign(best);
    newscore := p.score;
  }

  /**
   * treesearch_nni: climbs on a copy, so the argument is untouched, and
   * returns global_best, which is always the last committed tree.
   */
  method TreesearchNni(tree: Tree, o: Objective.ObjectiveFunction, score: Topo -> Objective.ScoreVectors, restricted: bool, fuel: nat)
    returns (result: Topo)
    requires ValidTopology(tree.Snapshot()) && ScoresFitEdges(score)
    ensures result == Climb(o, score, restricted, tree.Snapshot(), fuel).tree
    ensures ValidTopology(result)
    ensures result == tree.Snapshot() || Value(o, score, result) > Value(o, score, tree.Snapshot())
  {
    var tnew := new Tree.Copy(tree);
    result := NniLoop(tnew, o, score, restricted, fuel);
    ClimbStaysValid(o, score, restricted, tree.Snapshot(), fuel);
    ClimbImproves(o, score, restricted, tree.Snapshot(), fuel);
  }

  /** The while (true) loop of treesearch_nni on the copy tnew, taking at most fuel rounds. */
  method NniLoop(tnew: Tree, o: Objective.ObjectiveFunction, score: Topo -> Objective.ScoreVectors, restricted: bool, fuel: nat)
    returns (result: Topo)
    requires ValidTopology(tnew.Snapshot()) && ScoresFitEdges(score)
    modifies tnew
    ensures result == Climb(o, score, restricted, old(tnew.Snapshot()), fuel).tree
  {
    ghost var want := Climb(o, score, restricted, tnew.Snapshot(), fuel).tree;
    var oldscore := Objective.ObjFunOf(o, score(tnew.Snapshot()));
    var globalBest := tnew.Snapshot();
    var globalMax := oldscore;
    var rounds := fuel;
    while rounds > 0
      invariant ValidTopology(tnew.Snapshot()) && oldscore == Value(o, score, tnew.Snapshot())
      invariant Climb(o, score, restricted, tnew.Snapshot(), rounds).tree == want
      invariant globalMax == oldscore && globalBest == tnew.Snapshot()
      decreases rounds
    {
      var rest := rounds - 1;
      var moved, newscore := NniStep(tnew, o, score, restricted, oldscore, rest);
      if !moved {
        break;
      }
      oldscore := newscore;
      if newscore > globalMax {
        globalMax, globalBest := newscore, tnew.Snapshot();
      }
      rounds := rest;
    }
    result := globalBest;
  }

  // ------------------------------------------------------------------
  // treesearch_combo
  // ------------------------------------------------------------------

  /**
   * The driver undoes a rejected SPR move by making the same move again; the
   * model requires that this restores the tree, and that a valid move keeps
   * the topology valid.
   */
  ghost predicate SprUndoes(spr: (Topo, nat, nat) -> Topo)
  {
    forall t: Topo, i: nat, j: nat :: ValidTopology(t) && Spr.ValidSprMove(t, i, j) ==>
      ValidTopology(spr(t, i, j)) && spr(spr(t, i, j), i, j) == t
  }

  /** A pair the SPR pass tries: a valid move that spr_restrict_edgepair lets through. */
  predicate Offered(o: Objective.ObjectiveFunction, restricted: bool, negative: (Topo, nat, nat) -> bool, t: Topo, i: nat, j: nat)
    requires WellFormed(t)
  {
    Spr.ValidSprMove(t, i, j) && !Objective.SprRestrictEdgePair(o, restricted, negative(t, i, j))
  }

  /** Whether the pass commits the pair: offered, and its tree scores more than max. */
  predicate Beats(o: Objective.ObjectiveFunction, score: Topo -> Objective.ScoreVectors, restricted: bool,
                  spr: (Topo, nat, nat) -> Topo, negative: (Topo, nat, nat) -> bool, t: Topo, max: real, i: nat, j: nat)
    requires WellFormed(t)
  {
    Offered(o, restricted, negative, t, i, j) && Value(o, score, spr(t, i, j)) > max
  }

  datatype Hit = Miss | Hit(i: nat, j: nat)

  /** The first pair at or after (i, j), in row-major order, that the pass commits. */
  function FirstBetter(o: Objective.ObjectiveFunction, score: Topo -> Objective.ScoreVectors, restricted: bool,
                       spr: (Topo, nat, nat) -> Topo, negative: (Topo, nat, nat) -> bool, t: Topo, max: real, i: nat, j: nat): (h: Hit)
    requires WellFormed(t) && i <= |t.primary| && j <= |t.primary|
    ensures h.Hit? ==> h.i < |t.primary| && h.j < |t.primary| && Beats(o, score, restricted, spr, negative, t, max, h.i, h.j)
    ensures h.Hit? ==> i < h.i || (i == h.i && j <= h.j)
    decreases |t.primary| - i, |t.primary| - j
  {
    if i == |t.primary| then Miss
    else if j == |t.primary| then FirstBetter(o, score, restricted, spr, negative, t, max, i + 1, 0)
    else if Beats(o, score, restricted, spr, negative, t, max, i, j) then Hit(i, j)
    else FirstBetter(o, score, restricted, spr, negative, t, max, i, j + 1)
  }

  /** No pair between (i, j) and the hit, nor any pair at all after (i, j) when there is none, is committed. */
  lemma {:induction false} FirstBetterIsFirst(o: Objective.ObjectiveFunction, score: Topo -> Objective.ScoreVectors, restricted: bool,
                                              spr: (Topo, nat, nat) -> Topo, negative: (Topo, nat, nat) -> bool, t: Topo, max: real,
                                              i: nat, j: nat, a: nat, b: nat)
    requires WellFormed(t) && i <= |t.primary| && j <= |t.primary|
    requires a < |t.primary| && b < |t.primary| && (i < a || (i == a && j <= b))
    requires var h := FirstBetter(o, score, restricted, spr, negative, t, max, i, j);
      h.Miss? || a < h.i || (a == h.i && b < h.j)
    ensures !Beats(o, score, restricted, spr, negative, t, max, a, b)
    decreases |t.primary| - i, |t.primary| - j
  {
    if j == |t.primary| {
      FirstBetterIsFirst(o, score, restricted, spr, negative, t, max, i + 1, 0, a, b);
    } else if !(i == a && j == b) {
      FirstBetterIsFirst(o, score, restricted, spr, negative, t, max, i, j + 1, a, b);
    }
  }

  /** The running maximum and the tree that achieved it. */
  datatype Best = Best(tree: Topo, max: real)

  /**
   * After a committed SPR move: climb by NNI from the moved tree and keep the
   * result when it scores strictly more than the move did. Since the climb only
   * ever moves upwards, its result is always kept.
   */
  function AfterMove(o: Objective.ObjectiveFunction, score: Topo -> Objective.ScoreVectors, restricted: bool, moved: Topo, nniFuel: nat): (r: Best)
    requires ValidTopology(moved) && ScoresFitEdges(score)
    ensures ValidTopology(r.tree) && r.max == Value(o, score, r.tree) && r.max >= Value(o, score, moved)
    ensures r.tree == Climb(o, score, restricted, moved, nniFuel).tree
  {
    var tn := Climb(o, score, restricted, moved, nniFuel).tree;
    ClimbStaysValid(o, score, restricted, moved, nniFuel);
    ClimbImproves(o, score, restricted, moved, nniFuel);
    if Value(o, score, tn) > Value(o, score, moved) then Best(tn, Value(o, score, tn)) else Best(moved, Value(o, score, moved))
  }

  /** The combo search from best with running maximum max, taking at most fuel passes. */
  function Combo(o: Objective.ObjectiveFunction, score: Topo -> Objective.ScoreVectors, restricted: bool,
                 spr: (Topo, nat, nat) -> Topo, negative: (Topo, nat, nat) -> bool, best: Topo, max: real, fuel: nat, nniFuel: nat): (r: Best)
    requires ValidTopology(best) && ScoresFitEdges(score) && SprUndoes(spr)
    ensures ValidTopology(r.tree)
    decreases fuel
  {
    if fuel == 0 then Best(best, max)
    else
      var h := FirstBetter(o, score, restricted, spr, negative, best, max, 0, 0);
      if h.Miss? then Best(best, max)
      else
        var b := AfterMove(o, score, restricted, spr(best, h.i, h.j), nniFuel);
        Combo(o, score, restricted, spr, negative, b.tree, b.max, fuel - 1, nniFuel)
  }

  /** A pass that commits a move continues the search from the improved tree with one pass less. */
  lemma ComboMoves(o: Objective.ObjectiveFunction, score: Topo -> Objective.ScoreVectors, restricted: bool,
                   spr: (Topo, nat, nat) -> Topo, negative: (Topo, nat, nat) -> bool, best: Topo, max: real, f: nat, nniFuel: nat)
    requires ValidTopology(best) && ScoresFitEdges(score) && SprUndoes(spr)
    requires FirstBetter(o, score, restricted, spr, negative, best, max, 0, 0).Hit?
    ensures var h := FirstBetter(o, score, restricted, spr, negative, best, max, 0, 0);
      ValidTopology(spr(best, h.i, h.j))
      && var b := AfterMove(o, score, restricted, spr(best, h.i, h.j), nniFuel);
      Combo(o, score, restricted, spr, negative, best, max, f + 1, nniFuel) == Combo(o, score, restricted, spr, negative, b.tree, b.max, f, nniFuel)
  {
  }

  /**
   * max never decreases: the search returns its start, or a tree scoring
   * strictly more than the starting max, with max its score.
   */
  lemma {:induction false} ComboNeverWorse(o: Objective.ObjectiveFunction, score: Topo -> Objective.ScoreVectors, restricted: bool,
                                           spr: (Topo, nat, nat) -> Topo, negative: (Topo, nat, nat) -> bool, best: Topo, max: real,
                                           fuel: nat, nniFuel: nat)
    requires ValidTopology(best) && ScoresFitEdges(score) && SprUndoes(spr)
    ensures var r := Combo(o, score, restricted, spr, negative, best, max, fuel, nniFuel);
      r == Best(best, max) || (r.max > max && r.max == Value(o, score, r.tree))
    decreases fuel
  {
    if fuel > 0 && FirstBetter(o, score, restricted, spr, negative, best, max, 0, 0).Hit? {
      var h := FirstBetter(o, score, restricted, spr, negative, best, max, 0, 0);
      var f: nat := fuel - 1;
      ComboMoves(o, score, restricted, spr, negative, best, max, f, nniFuel);
      var b := AfterMove(o, score, restricted, spr(best, h.i, h.j), nniFuel);
      assert b.max > max;
      ComboNeverWorse(o, score, restricted, spr, negative, b.tree, b.max, f, nniFuel);
    }
  }

  // ----- the pass as the source runs it: in place, with undo -----

  /** Making a valid move on t twice gives t back: what lets the pass undo a rejected move in place. */
  ghost predicate SprUndoesAt(spr: (Topo, nat, nat) -> Topo, t: Topo)
    requires WellFormed(t)
  {
    forall i: nat, j: nat {:trigger spr(spr(t, i, j), i, j)} :: Spr.ValidSprMove(t, i, j) ==> spr(spr(t, i, j), i, j) == t
  }

  lemma ValidSprUndoes(spr: (Topo, nat, nat) -> Topo, t: Topo)
    requires ValidTopology(t) && SprUndoes(spr)
    ensures SprUndoesAt(spr, t)
  {
  }

  /**
   * One (i, j) of the SPR pass: skip a pair that is not offered; otherwise
   * make the move and score it, keep it when it beats max and undo it by
   * making it again when it does not.
   */
  method SprTry(tnew: Tree, o: Objective.ObjectiveFunction, score: Topo -> Objective.ScoreVectors, restricted: bool,
                spr: (Topo, nat, nat) -> Topo, negative: (Topo, nat, nat) -> bool, max: real, i: nat, j: nat, ghost t: Topo)
    returns (hit: bool, sum: real)
    requires WellFormed(t) && SprUndoesAt(spr, t) && tnew.Snapshot() == t
    modifies tnew
    ensures hit == Beats(o, score, restricted, spr, negative, t, max, i, j)
    ensures hit ==> tnew.Snapshot() == spr(t, i, j) && sum == Value(o, score, spr(t, i, j))
    ensures !hit ==> tnew.Snapshot() == t
  {
    if !Spr.ValidSprMove(tnew.Snapshot(), i, j) || Objective.SprRestrictEdgePair(o, restricted, negative(tnew.Snapshot(), i, j)) {
      return false, 0.0;
    }
    tnew.Assign(spr(tnew.Snapshot(), i, j));
    sum := Objective.ObjFunOf(o, score(tnew.Snapshot()));
    if sum > max {
      return true, sum;
    }
    tnew.Assign(spr(tnew.Snapshot(), i, j));
    hit := false;
  }

  /** Row i of the SPR pass: the first committed pair of the row, or the search goes on at row i + 1. */
  method SprRow(tnew: Tree, o: Objective.ObjectiveFunction, score: Topo -> Objective.ScoreVectors, restricted: bool,
                spr: (Topo, nat, nat) -> Topo, negative: (Topo, nat, nat) -> bool, max: real, i: nat, ghost t: Topo)
    returns (h: Hit, sum: real)
    requires WellFormed(t) && SprUndoesAt(spr, t) && tnew.Snapshot() == t && i < |t.primary|
    modifies tnew
    ensures h.Hit? ==> h == FirstBetter(o, score, restricted, spr, negative, t, max, i, 0)
    ensures h.Hit? ==> tnew.Snapshot() == spr(t, h.i, h.j) && sum == Value(o, score, spr(t, h.i, h.j))
    ensures h.Miss? ==>
      tnew.Snapshot() == t
      && FirstBetter(o, score, restricted, spr, negative, t, max, i, 0) == FirstBetter(o, score, restricted, spr, negative, t, max, i + 1, 0)
  {
    var m := |tnew.primary|;
    var j: nat := 0;
    while j < m
      invariant tnew.Snapshot() == t && m == |t.primary| && j <= m
      invariant FirstBetter(o, score, restricted, spr, negative, t, max, i, j) == FirstBetter(o, score, restricted, spr, negative, t, max, i, 0)
    {
      var hit;
      hit, sum := SprTry(tnew, o, score, restricted, spr, negative, max, i, j, t);
      if hit {
        return Hit(i, j), sum;
      }
      j := j + 1;
    }
    h, sum := Miss, 0.0;
  }

  /**
   * The SPR pass of one iteration of treesearch_combo over the tree t: the
   * first committed pair in row-major order, with the tree moved by it, or
   * Miss with the tree as it was.
   */
  method SprPass(tnew: Tree, o: Objective.ObjectiveFunction, score: Topo -> Objective.ScoreVectors, restricted: bool,
                 spr: (Topo, nat, nat) -> Topo, negative: (Topo, nat, nat) -> bool, max: real, ghost t: Topo)
    returns (h: Hit, sum: real)
    requires WellFormed(t) && SprUndoesAt(spr, t) && tnew.Snapshot() == t
    modifies tnew
    ensures h == FirstBetter(o, score, restricted, spr, negative, t, max, 0, 0)
    ensures h.Hit? ==> tnew.Snapshot() == spr(t, h.i, h.j) && sum == Value(o, score, spr(t, h.i, h.j))
    ensures h.Miss? ==> tnew.Snapshot() == t
  {
    var m := |tnew.primary|;
    var i: nat := 0;
    while i < m
      invariant tnew.Snapshot() == t && m == |t.primary| && i <= m
      invariant FirstBetter(o, score, restricted, spr, negative, t, max, i, 0) == FirstBetter(o, score, restricted, spr, negative, t, max, 0, 0)
    {
      h, sum := SprRow(tnew, o, score, restricted, spr, negative, max, i, t);
      if h.Hit? {
        return;
      }
      i := i + 1;
    }
    h, sum := Miss, 0.0;
  }

  /**
   * One iteration of the while (true) loop of treesearch_combo from best:
   * the SPR pass, then on a hit the NNI climb from the moved tree, kept when
   * it scores strictly more than the move.
   */
  method ComboStep(tnew: Tree, o: Objective.ObjectiveFunction, score: Topo -> Objective.ScoreVectors, restricted: bool,
                   spr: (Topo, nat, nat) -> Topo, negative: (Topo, nat, nat) -> bool, best: Topo, max: real, nniFuel: nat, ghost rest: nat)
    returns (found: bool, best': Topo, max': real)
    requires ValidTopology(best) && ScoresFitEdges(score) && SprUndoes(spr)
    modifies tnew
    ensures ValidTopology(best')
    ensures !found ==> Combo(o, score, restricted, spr, negative, best, max, rest + 1, nniFuel) == Best(best, max)
    ensures found ==>
      Combo(o, score, restricted, spr, negative, best', max', rest, nniFuel)
        == Combo(o, score, restricted, spr, negative, best, max, rest + 1, nniFuel)
  {
    tnew.Assign(best);
    ValidSprUndoes(spr, best);
    var h, sum := SprPass(tnew, o, score, restricted, spr, negative, max, best);
    if h.Miss? {
      return false, best, max;
    }
    ComboMoves(o, score, restricted, spr, negative, best, max, rest, nniFuel);
    var moved := tnew.Snapshot();
    var climbed := TreesearchNni(tnew, o, score, restricted, nniFuel);
    var s := Objective.ObjFunOf(o, score(climbed));
    found := true;
    if s > sum {
      best', max' := climbed, s;
    } else {
      best', max' := moved, sum;
    }
  }

  /**
   * treesearch_combo: the running maximum starts at the LQIC sum of the
   * argument whatever the objective, as sum_lqic_scores is called there;
   * every pass that commits an SPR move is followed by an NNI climb.
   */
  method TreesearchCombo(tree: Tree, o: Objective.ObjectiveFunction, score: Topo -> Objective.ScoreVectors, restricted: bool,
                         spr: (Topo, nat, nat) -> Topo, negative: (Topo, nat, nat) -> bool, fuel: nat, nniFuel: nat)
    returns (result: Topo)
    requires ValidTopology(tree.Snapshot()) && ScoresFitEdges(score) && SprUndoes(spr)
    ensures result == Combo(o, score, restricted, spr, negative, tree.Snapshot(), Value(Objective.LQIC, score, tree.Snapshot()), fuel, nniFuel).tree
    ensures ValidTopology(result)
  {
    var tnew := new Tree.Copy(tree);
    var oldscore := Objective.SumLqicScores(score(tnew.Snapshot()));
    result := ComboLoop(tnew, o, score, restricted, spr, negative, tnew.Snapshot(), oldscore, fuel, nniFuel);
  }

  /** The while (true) loop of treesearch_combo, from best and max, taking at most fuel passes. */
  method ComboLoop(tnew: Tree, o: Objective.ObjectiveFunction, score: Topo -> Objective.ScoreVectors, restricted: bool,
                   spr: (Topo, nat, nat) -> Topo, negative: (Topo, nat, nat) -> bool, best: Topo, max: real, fuel: nat, nniFuel: nat)
    returns (result: Topo)
    requires ValidTopology(best) && ScoresFitEdges(score) && SprUndoes(spr)
    modifies tnew
    ensures result == Combo(o, score, restricted, spr, negative, best, max, fuel, nniFuel).tree
    ensures ValidTopology(result)
  {
    var b, m := best, max;
    var passes := fuel;
    while passes > 0
      invariant ValidTopology(b)
      invariant Combo(o, score, restricted, spr, negative, b, m, passes, nniFuel) == Combo(o, score, restricted, spr, negative, best, max, fuel, nniFuel)
      decreases passes
    {
      var rest := passes - 1;
      var found, b', m' := ComboStep(tnew, o, score, restricted, spr, negative, b, m, nniFuel, rest);
      if !found {
        break;
      }
      b, m, passes := b', m', rest;
    }
    result := b;
  }
}
