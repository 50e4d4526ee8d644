/**
 * The SPR candidate enumeration (src/spr_iterator.hpp). An SPR tree holds a
 * base tree, the current prune edge i and a mask over the regraft edges; the
 * iterator walks the (prune, regraft) pairs in row-major order, refilling the
 * mask whenever it moves to a new prune edge, and stops on the pairs the mask
 * offers.
 *
 * The lowest-common-ancestor query of TreeInformation and the `spr` move
 * function are not part of this model: both are parameters.
 */
module SprEnumeration {
  import opened ParentMaps
  import opened Topology
  import opened Spr
  import SprTour
  import SprValidity

  // ------------------------------------------------------------------
  // What fill_spr_ok_for_i computes.
  // ------------------------------------------------------------------

  /**
   * The edges the ancestor loop clears: i itself and, going up from i's
   * primary node u, the edge above every node up to the root. When u is
   * the root, the loop stops at once and clears the edge of the root's
   * primary link.
   */
  ghost predicate AboveEdge(t: Topo, i: nat, e: nat)
    requires WellFormed(t) && i < |t.primary| && e < |t.primary|
  {
    var u := t.node[t.primary[i]];
    || e == i
    || (u == t.root && e == t.edge[t.up[t.root]])
    || (u != t.root && Below(Parents(t), u, t.node[t.secondary[e]]))
  }

  /**
   * Whether the LQIC restriction keeps regraft edge j for prune edge i, as
   * the two path loops are written: the loop on i's side never runs, and the
   * loop on j's side looks at the edge above j's primary node only, once.
   * The pair is kept when that edge exists, does not end at the common
   * ancestor, is not the edge above i's primary node, and has a negative score.
   */
  predicate LqicKeeps(t: Topo, i: nat, j: nat, lqic: seq<real>, lcaNode: nat)
    requires WellFormed(t) && i < |t.primary| && j < |t.primary| && |lqic| == |t.primary|
  {
    var ui, uj := t.node[t.primary[i]], t.node[t.primary[j]];
    var ej := t.edge[t.up[uj]];
    && uj != t.root && uj != lcaNode
    && t.node[t.secondary[ej]] != lcaNode && ej != t.edge[t.up[ui]]
    && lqic[ej] < 0.0
  }

  /** A score vector is either absent or has one entry per edge. */
  predicate ScoresFit(t: Topo, lqic: seq<real>)
  {
    |lqic| == 0 || |lqic| == |t.primary|
  }

  /** Whether the mask for prune edge i offers regraft edge e. */
  ghost predicate Offered(t: Topo, i: nat, e: nat, lqic: seq<real>, lca: (nat, nat) -> nat)
    requires WellFormed(t) && i < |t.primary| && e < |t.primary| && ScoresFit(t, lqic)
  {
    && e !in TourEdges(t, i, t.primary[i], 0)
    && !AboveEdge(t, i, e)
    && e != PruneSideEdges(t, i).0 && e != PruneSideEdges(t, i).1
    && (|lqic| > 0 ==> LqicKeeps(t, i, e, lqic, lca(t.node[t.primary[i]], t.node[t.primary[e]])))
  }

  /** ok is the mask fill_spr_ok_for_i leaves for prune edge i. */
  ghost predicate IsMask(ok: seq<bool>, t: Topo, i: nat, lqic: seq<real>, lca: (nat, nat) -> nat)
    requires WellFormed(t) && i < |t.primary| && ScoresFit(t, lqic)
  {
    && |ok| == |t.primary|
    && forall e :: 0 <= e < |t.primary| ==> ok[e] == Offered(t, i, e, lqic, lca)
  }

  /** Reading one entry of a mask. */
  lemma MaskEntry(ok: seq<bool>, t: Topo, i: nat, lqic: seq<real>, lca: (nat, nat) -> nat, e: nat)
    requires WellFormed(t) && i < |t.primary| && ScoresFit(t, lqic) && IsMask(ok, t, i, lqic, lca) && e < |t.primary|
    ensures ok[e] == Offered(t, i, e, lqic, lca)
  {
  }

  /** The prune edge whose mask an SPR tree holds: next_i stops refilling at the last edge. */
  function Row(t: Topo, i: nat): (r: nat)
    requires |t.primary| > 0
    ensures r < |t.primary| && (i < |t.primary| ==> r == i)
  {
    if i < |t.primary| then i else |t.primary| - 1
  }

  // ------------------------------------------------------------------
  // fill_spr_ok_for_i, phase by phase.
  // ------------------------------------------------------------------

  /** All true, then every edge the tour below i meets is cleared, up to the break at i's secondary link. */
  method TourMask(t: Topo, i: nat) returns (ok: seq<bool>)
    requires WellFormed(t) && i < |t.primary|
    ensures |ok| == |t.primary|
    ensures forall e :: 0 <= e < |t.primary| ==> (ok[e] <==> e !in TourEdges(t, i, t.primary[i], 0))
  {
    ok := seq(|t.primary|, _ => true);
    var l: nat, k: nat := t.primary[i], 0;
    ghost var done: set<nat> := {};
    while !(k > 0 && l == t.primary[i]) && k < |t.outer| && !(t.edge[l] == i && l == t.secondary[i])
      invariant l < |t.outer| && |ok| == |t.primary|
      invariant TourEdges(t, i, t.primary[i], 0) == done + TourEdges(t, i, l, k)
      invariant forall e :: 0 <= e < |t.primary| ==> (ok[e] <==> e !in done)
      decreases |t.outer| - k
    {
      ok := ok[t.edge[l] := false];
      done := done + {t.edge[l]};
      l, k := TourStep(t, l), k + 1;
    }
  }

  /** The root's primary link is the primary link of its edge. */
  lemma RootUpIsPrimary(t: Topo)
    requires ValidTopology(t)
    ensures t.primary[t.edge[t.up[t.root]]] == t.up[t.root]
    ensures t.node[t.primary[t.edge[t.up[t.root]]]] == t.root
  {
    var l := t.up[t.root];
    assert t.node[l] == t.root;
    if t.secondary[t.edge[l]] == l {
      assert false;
    }
  }

  /** ok0 with i cleared and the edge above every node from u up to but excluding w. */
  ghost predicate PathCleared(t: Topo, i: nat, ok0: seq<bool>, ok: seq<bool>, u: nat, w: nat)
    requires WellFormed(t) && i < |t.primary| && |ok0| == |t.primary| && |ok| == |t.primary|
    requires u < |t.up| && w < |t.up|
  {
    forall e :: 0 <= e < |t.primary| ==>
      ok[e] == (ok0[e] && e != i
        && !(Below(Parents(t), u, t.node[t.secondary[e]]) && !Below(Parents(t), w, t.node[t.secondary[e]])))
  }

  /** Clearing the edge above w moves the cleared path up to w's parent. */
  lemma PathClearedStep(t: Topo, i: nat, ok0: seq<bool>, ok: seq<bool>, u: nat, w: nat)
    requires ValidTopology(t) && i < |t.primary| && |ok0| == |t.primary| && |ok| == |t.primary|
    requires u < |t.up| && w < |t.up| && w != t.root && Below(Parents(t), u, w)
    requires PathCleared(t, i, ok0, ok, u, w)
    ensures PathCleared(t, i, ok0, ok[t.edge[t.up[w]] := false], u, Parents(t)[w])
  {
    var par := Parents(t);
    var j := t.edge[t.up[w]];
    assert t.secondary[j] == t.up[w];
    NotBelowChild(par, t.root, par[w], w);
    forall e | 0 <= e < |t.primary|
      ensures ok[j := false][e] == (ok0[e] && e != i
        && !(Below(par, u, t.node[t.secondary[e]]) && !Below(par, par[w], t.node[t.secondary[e]])))
    {
      var x := t.node[t.secondary[e]];
      BelowUp(par, w, x);
      if x == w {
        assert t.up[x] == t.secondary[e];
      }
    }
  }

  /** The last clear of the ancestor loop completes the path to the root. */
  lemma PathClearedLast(t: Topo, i: nat, ok0: seq<bool>, ok: seq<bool>, u: nat, w: nat)
    requires ValidTopology(t) && i < |t.primary| && |ok0| == |t.primary| && |ok| == |t.primary|
    requires u == t.node[t.primary[i]] && w < |t.up|
    requires (u == t.root && w == t.root) || (u != t.root && w != t.root && Below(Parents(t), u, w) && Parents(t)[w] == t.root)
    requires PathCleared(t, i, ok0, ok, u, w)
    ensures forall e :: 0 <= e < |t.primary| ==>
      ok[t.edge[t.up[w]] := false][e] == (ok0[e] && !AboveEdge(t, i, e))
  {
    var par := Parents(t);
    if u == t.root {
      forall e | 0 <= e < |t.primary|
        ensures ok[t.edge[t.up[w]] := false][e] == (ok0[e] && !AboveEdge(t, i, e))
      {
        var x := t.node[t.secondary[e]];
        BelowRoot(par, t.root, x);
      }
    } else {
      var ok' := ok[t.edge[t.up[w]] := false];
      PathClearedStep(t, i, ok0, ok, u, w);
      forall e | 0 <= e < |t.primary|
        ensures ok'[e] == (ok0[e] && !AboveEdge(t, i, e))
      {
        var x := t.node[t.secondary[e]];
        BelowRoot(par, t.root, x);
      }
    }
  }

  /** The state of the ancestor loop: j is the edge above w, and the path from u up to w is cleared. */
  ghost predicate AncestorLoop(t: Topo, i: nat, ok0: seq<bool>, ok: seq<bool>, w: nat, j: nat, m: nat)
    requires ValidTopology(t) && i < |t.primary| && |ok0| == |t.primary|
  {
    var u := t.node[t.primary[i]];
    && j < |t.primary| && |ok| == |t.primary| && w < |t.up|
    && (u == t.root ==> w == t.root && j == t.edge[t.up[t.root]] && t.node[t.primary[j]] == t.root)
    && (u != t.root ==> w != t.root && j == t.edge[t.up[w]] && Below(Parents(t), u, w)
                        && t.node[t.primary[j]] == Parents(t)[w])
    && Ancestor(Parents(t), w, m) == t.root
    && PathCleared(t, i, ok0, ok, u, w)
  }

  lemma AncestorLoopInit(t: Topo, i: nat, ok0: seq<bool>)
    requires ValidTopology(t) && i < |t.primary| && |ok0| == |t.primary|
    ensures AncestorLoop(t, i, ok0, ok0[i := false], PrimaryNode(t, i), EdgeAbove(t, PrimaryNode(t, i)), |t.up|)
  {
    var u := t.node[t.primary[i]];
    RootUpIsPrimary(t);
    if u != t.root {
      ParentAcrossUp(t, u);
    }
    assert Ancestor(Parents(t), u, 0) == u;
  }

  /** The facts one turn of the ancestor loop needs before it moves up. */
  lemma AncestorLoopGuard(t: Topo, i: nat, ok0: seq<bool>, ok: seq<bool>, w: nat, j: nat, m: nat)
    requires ValidTopology(t) && i < |t.primary| && |ok0| == |t.primary|
    requires AncestorLoop(t, i, ok0, ok, w, j, m) && PrimaryNode(t, j) != t.root
    ensures m > 0 && PrimaryNode(t, j) == Parents(t)[w] && Parents(t)[w] < |t.up|
  {
    ParentAcrossUp(t, w);
  }

  /** One turn of the ancestor loop, from (ok, w, j, m) to (ok', w', j', m'), keeps its state. */
  lemma AncestorLoopStep(t: Topo, i: nat, ok0: seq<bool>, ok: seq<bool>, w: nat, j: nat, m: nat,
                         ok': seq<bool>, w': nat, j': nat, m': nat)
    requires ValidTopology(t) && i < |t.primary| && |ok0| == |t.primary|
    requires AncestorLoop(t, i, ok0, ok, w, j, m) && PrimaryNode(t, j) != t.root
    requires ok' == ok[j := false] && w' == Parents(t)[w] && j' == EdgeAbove(t, PrimaryNode(t, j)) && m' + 1 == m
    ensures AncestorLoop(t, i, ok0, ok', w', j', m')
  {
    var par := Parents(t);
    var u := t.node[t.primary[i]];
    assert u != t.root && w != t.root && j == t.edge[t.up[w]] && Below(par, u, w);
    assert m > 0 && w' == t.node[t.primary[j]];
    PathClearedStep(t, i, ok0, ok, u, w);
    BelowStep(par, u, w, w');
    assert Ancestor(par, w', m') == t.root;
    assert w' != t.root;
    ParentAcrossUp(t, w');
  }

  lemma AncestorLoopExit(t: Topo, i: nat, ok0: seq<bool>, ok: seq<bool>, w: nat, j: nat, m: nat)
    requires ValidTopology(t) && i < |t.primary| && |ok0| == |t.primary|
    requires AncestorLoop(t, i, ok0, ok, w, j, m) && PrimaryNode(t, j) == t.root
    ensures |ok[j := false]| == |t.primary|
    ensures forall e :: 0 <= e < |t.primary| ==> ok[j := false][e] == (ok0[e] && !AboveEdge(t, i, e))
  {
    var u := t.node[t.primary[i]];
    if u != t.root {
      ParentAcrossUp(t, w);
    }
    PathClearedLast(t, i, ok0, ok, u, w);
  }

  /** The do-while of fill_spr_ok_for_i: clear i and the edges up to the one hanging from the root. */
  method ClearAncestors(t: Topo, i: nat, ok0: seq<bool>) returns (ok: seq<bool>)
    requires ValidTopology(t) && i < |t.primary| && |ok0| == |t.primary|
    ensures |ok| == |t.primary|
    ensures forall e :: 0 <= e < |t.primary| ==> ok[e] == (ok0[e] && !AboveEdge(t, i, e))
  {
    ghost var w: nat := PrimaryNode(t, i);
    ghost var m: nat := |t.up|;
    AncestorLoopInit(t, i, ok0);
    var j: nat := i;
    ok := ok0[j := false];
    j := EdgeAbove(t, PrimaryNode(t, j));
    while PrimaryNode(t, j) != t.root
      invariant j < |t.primary| && w < |t.up| && |ok| == |t.primary|
      invariant AncestorLoop(t, i, ok0, ok, w, j, m)
      decreases m
    {
      AncestorLoopGuard(t, i, ok0, ok, w, j, m);
      ghost var ok1, w1, j1, m1 := ok, w, j, m;
      ok, w, m, j := ok[j := false], Parents(t)[w], m - 1, EdgeAbove(t, PrimaryNode(t, j));
      AncestorLoopStep(t, i, ok0, ok1, w1, j1, m1, ok, w, j, m);
    }
    AncestorLoopExit(t, i, ok0, ok, w, j, m);
    ok := ok[j := false];
  }

  /**
   * One path loop of the LQIC restriction, as written: starting at edge e0,
   * while the edge does not end at the common ancestor and is not the stop
   * edge, a negative score clears skip, and the edge becomes the stop edge.
   */
  method ScanPath(t: Topo, lqic: seq<real>, e0: nat, stop: nat, lcaNode: nat, skip: bool) returns (skip': bool)
    requires WellFormed(t) && e0 < |t.primary| && stop < |t.primary| && |lqic| == |t.primary|
    ensures skip' == (skip && !(t.node[t.secondary[e0]] != lcaNode && e0 != stop && lqic[e0] < 0.0))
  {
    skip' := skip;
    var e := e0;
    while t.node[t.secondary[e]] != lcaNode && e != stop
      invariant e < |t.primary|
      invariant e == e0 ==> skip' == skip
      invariant e != e0 ==>
        (e == stop && t.node[t.secondary[e0]] != lcaNode && e0 != stop && skip' == (skip && !(lqic[e0] < 0.0)))
      decreases if e == stop then 0 else 1
    {
      if lqic[e] < 0.0 {
        skip' := false;
      }
      e := stop;
    }
  }

  /** The LQIC branch: for every regraft edge j, clear it unless one of the path loops found a negative score. */
  method LqicMask(t: Topo, i: nat, ok0: seq<bool>, lqic: seq<real>, lca: (nat, nat) -> nat) returns (ok: seq<bool>)
    requires WellFormed(t) && i < |t.primary| && |ok0| == |t.primary| && |lqic| == |t.primary|
    ensures |ok| == |t.primary|
    ensures forall e :: 0 <= e < |t.primary| ==>
      ok[e] == (ok0[e] && LqicKeeps(t, i, e, lqic, lca(t.node[t.primary[i]], t.node[t.primary[e]])))
  {
    ok := ok0;
    var ui := t.node[t.primary[i]];
    for jj := 0 to |lqic|
      invariant |ok| == |t.primary|
      invariant forall e :: 0 <= e < jj ==>
        ok[e] == (ok0[e] && LqicKeeps(t, i, e, lqic, lca(ui, t.node[t.primary[e]])))
      invariant forall e :: jj <= e < |t.primary| ==> ok[e] == ok0[e]
    {
      var uj := t.node[t.primary[jj]];
      var lcaNode := lca(ui, uj);
      var skip := true;
      if ui != t.root {
        if ui != lcaNode {
          skip := ScanPath(t, lqic, t.edge[t.up[ui]], t.edge[t.up[ui]], lcaNode, skip);
        }
      }
      if uj != t.root {
        if uj != lcaNode {
          skip := ScanPath(t, lqic, t.edge[t.up[uj]], t.edge[t.up[ui]], lcaNode, skip);
        }
      }
      if skip {
        ok := ok[jj := false];
      }
    }
  }

  /** fill_spr_ok_for_i: the four phases in order. */
  method FillMask(t: Topo, i: nat, lqic: seq<real>, lca: (nat, nat) -> nat) returns (ok: seq<bool>)
    requires ValidTopology(t) && i < |t.primary| && ScoresFit(t, lqic)
    ensures IsMask(ok, t, i, lqic, lca)
  {
    ok := TourMask(t, i);
    ok := ClearAncestors(t, i, ok);
    ok := ok[t.edge[t.next[t.primary[i]]] := false];
    ok := ok[t.edge[t.next[t.next[t.primary[i]]]] := false];
    if |lqic| > 0 {
      ok := LqicMask(t, i, ok, lqic, lca);
    }
  }

  // ------------------------------------------------------------------
  // What the mask offers.
  // ------------------------------------------------------------------

  /** Every offered regraft edge is a move validSprMove accepts. */
  lemma OfferedIsValidMove(t: Topo, i: nat, e: nat, lqic: seq<real>, lca: (nat, nat) -> nat)
    requires WellFormed(t) && i < |t.primary| && e < |t.primary| && ScoresFit(t, lqic)
    requires Offered(t, i, e, lqic, lca)
    ensures ValidSprMove(t, i, e)
  {
    ValidSprMoveIff(t, i, e);
  }

  /**
   * Without a score vector the mask offers exactly the valid moves whose
   * regraft edge is not on the path from i up to the root; when i hangs from
   * the root, that is every valid move.
   */
  lemma UnrestrictedOffered(t: Topo, i: nat, e: nat, lca: (nat, nat) -> nat)
    requires ValidTopology(t) && i < |t.primary| && e < |t.primary|
    ensures Offered(t, i, e, [], lca) <==> ValidSprMove(t, i, e) && !AboveEdge(t, i, e)
    ensures t.node[t.primary[i]] == t.root ==> (Offered(t, i, e, [], lca) <==> ValidSprMove(t, i, e))
  {
    ValidSprMoveIff(t, i, e);
    var p := t.primary[i];
    if t.node[p] == t.root {
      assert t.up[t.node[p]] == p || t.next[p] == t.up[t.node[p]] || t.next[t.next[p]] == t.up[t.node[p]];
    }
  }

  /**
   * The edges above i are valid regraft targets that the mask still
   * withholds: validSprMove accepts them, the iterator never offers them.
   */
  lemma AncestorEdgeWithheld(t: Topo, i: nat, e: nat, lqic: seq<real>, lca: (nat, nat) -> nat)
    requires ValidTopology(t) && i < |t.primary| && e < |t.primary| && ScoresFit(t, lqic)
    requires t.node[t.primary[i]] != t.root && e != i
    requires e != PruneSideEdges(t, i).0 && e != PruneSideEdges(t, i).1
    requires Below(Parents(t), t.node[t.primary[i]], t.node[t.secondary[e]])
    ensures ValidSprMove(t, i, e) && !Offered(t, i, e, lqic, lca)
  {
    SprTour.PruneFacts(t, i);
    SprValidity.RegraftFacts(t, e);
    SprTour.ValidSprMoveMeaning(t, i, e);
    AboveNotBelow(Parents(t), t.root, t.node[t.secondary[i]], t.node[t.secondary[e]]);
  }

  /** An offered move away from the root keeps the tree valid. */
  lemma OfferedMoveKeepsValid(t: Topo, i: nat, e: nat, lqic: seq<real>, lca: (nat, nat) -> nat)
    requires ValidTopology(t) && i < |t.primary| && e < |t.primary| && ScoresFit(t, lqic)
    requires Offered(t, i, e, lqic, lca) && !PrunesAtRoot(t, i)
    ensures ValidTopology(SprNonRoot(t, i, e))
  {
    OfferedIsValidMove(t, i, e, lqic, lca);
    SprTour.AcceptedSprNonRootValid(t, i, e);
  }

  /** Under LQIC only the score of the edge above j's primary node matters; no other score is read. */
  lemma LqicReadsOneScore(t: Topo, i: nat, j: nat, lqic: seq<real>, lqic': seq<real>, lcaNode: nat)
    requires WellFormed(t) && i < |t.primary| && j < |t.primary|
    requires |lqic| == |t.primary| && |lqic'| == |t.primary|
    requires lqic[t.edge[t.up[t.node[t.primary[j]]]]] == lqic'[t.edge[t.up[t.node[t.primary[j]]]]]
    ensures LqicKeeps(t, i, j, lqic, lcaNode) == LqicKeeps(t, i, j, lqic', lcaNode)
    ensures t.node[t.primary[j]] == t.root ==> !LqicKeeps(t, i, j, lqic, lcaNode)
  {
  }

  // ------------------------------------------------------------------
  // jump_to_next.
  // ------------------------------------------------------------------

  /** Position (i, j) comes strictly before (i', j') in row-major order. */
  predicate Before(i: nat, j: nat, i': nat, j': nat)
  {
    i < i' || (i == i' && j < j')
  }

  /** A grid of masks, one row per prune edge, each as long as the edge list. */
  ghost predicate Table(t: Topo, m: seq<seq<bool>>)
  {
    |t.primary| > 0 && |m| == |t.primary| && forall r :: 0 <= r < |m| ==> |m[r]| == |m|
  }

  /** The masks of every prune edge. */
  ghost function Masks(t: Topo, lqic: seq<real>, lca: (nat, nat) -> nat): (m: seq<seq<bool>>)
    requires WellFormed(t) && |t.primary| > 0 && ScoresFit(t, lqic)
    ensures Table(t, m) && forall r :: 0 <= r < |m| ==> IsMask(m[r], t, r, lqic, lca)
  {
    seq(|t.primary|, r requires 0 <= r < |t.primary| =>
      seq(|t.primary|, e requires 0 <= e < |t.primary| => Offered(t, r, e, lqic, lca)))
  }

  /** A mask is determined by its prune edge: an SPR tree's mask is its row of the table. */
  lemma TableRow(t: Topo, lqic: seq<real>, lca: (nat, nat) -> nat, ok: seq<bool>, i: nat)
    requires WellFormed(t) && |t.primary| > 0 && ScoresFit(t, lqic) && IsMask(ok, t, Row(t, i), lqic, lca)
    ensures Masks(t, lqic, lca)[Row(t, i)] == ok
  {
    var row := Masks(t, lqic, lca)[Row(t, i)];
    assert forall e :: 0 <= e < |ok| ==> row[e] == ok[e];
  }

  /** One step of jump_to_next from (i, j) to (i', j'), with the SPR tree advanced on a new row. */
  predicate Step(n: nat, i: nat, j: nat, ti: nat, i': nat, j': nat, ti': nat)
  {
    if j + 1 < n then i' == i && j' == j + 1 && ti' == ti
    else if i + 1 < n then i' == i + 1 && j' == 0 && ti' == ti + 1
    else i' == i + 1 && j' == 0 && ti' == ti
  }

  /**
   * Where jump_to_next leaves the iterator at (i, j) whose SPR tree is at
   * prune edge ti, given the table m of masks: the next position whose mask
   * entry is set, or the first position past the last prune edge; each new
   * row advances the SPR tree.
   */
  ghost function Jump(t: Topo, m: seq<seq<bool>>, i: nat, j: nat, ti: nat): (r: (nat, nat, nat))
    requires Table(t, m)
    ensures r.1 < |t.primary|
    decreases if i < |t.primary| then |t.primary| - i else 0, if j < |t.primary| then |t.primary| - j else 0
  {
    if j + 1 >= |t.primary| then
      if i + 1 >= |t.primary| then (i + 1, 0, ti)
      else if m[Row(t, ti + 1)][0] then (i + 1, 0, ti + 1)
      else Jump(t, m, i + 1, 0, ti + 1)
    else if m[Row(t, ti)][j + 1] then (i, j + 1, ti)
    else Jump(t, m, i, j + 1, ti)
  }

  /** Jump goes on past a step that neither runs off the last row nor lands on a set entry. */
  lemma JumpContinues(t: Topo, m: seq<seq<bool>>, i: nat, j: nat, ti: nat, i': nat, j': nat, ti': nat)
    requires Table(t, m) && Step(|t.primary|, i, j, ti, i', j', ti')
    requires !(j + 1 >= |t.primary| && i + 1 >= |t.primary|) && !m[Row(t, ti')][j']
    ensures Jump(t, m, i', j', ti') == Jump(t, m, i, j, ti)
  {
  }

  /** Jump stops after one step that runs off the last row or lands on a set entry. */
  lemma JumpStops(t: Topo, m: seq<seq<bool>>, i: nat, j: nat, ti: nat, i': nat, j': nat, ti': nat)
    requires Table(t, m) && Step(|t.primary|, i, j, ti, i', j', ti')
    requires (j + 1 >= |t.primary| && i + 1 >= |t.primary|) || m[Row(t, ti')][j']
    ensures Jump(t, m, i, j, ti) == (i', j', ti')
  {
  }

  /** jump_to_next moves strictly forward, and lands on an offered pair unless it ran off the end. */
  lemma {:induction false} JumpAdvances(t: Topo, lqic: seq<real>, lca: (nat, nat) -> nat, i: nat, j: nat, ti: nat)
    requires WellFormed(t) && |t.primary| > 0 && ScoresFit(t, lqic)
    ensures var r := Jump(t, Masks(t, lqic, lca), i, j, ti);
      && Before(i, j, r.0, r.1)
      && (r.0 >= |t.primary| || Offered(t, Row(t, r.2), r.1, lqic, lca))
      && (i >= |t.primary| ==> r.0 >= |t.primary| && r.0 <= i + 1 && r.2 == ti)
    decreases if i < |t.primary| then |t.primary| - i else 0, if j < |t.primary| then |t.primary| - j else 0
  {
    var m := Masks(t, lqic, lca);
    if j + 1 >= |t.primary| {
      if i + 1 < |t.primary| && !m[Row(t, ti + 1)][0] {
        JumpAdvances(t, lqic, lca, i + 1, 0, ti + 1);
      }
    } else if !m[Row(t, ti)][j + 1] {
      JumpAdvances(t, lqic, lca, i, j + 1, ti);
    }
  }

  /**
   * From a position inside the grid whose SPR tree is at the same prune edge,
   * jump_to_next skips exactly the pairs the masks withhold: it lands on the
   * next offered pair, keeps the SPR tree in step, and otherwise ends at
   * (edge count, 0).
   */
  lemma {:induction false} JumpInStep(t: Topo, lqic: seq<real>, lca: (nat, nat) -> nat, i: nat, j: nat)
    requires WellFormed(t) && |t.primary| > 0 && ScoresFit(t, lqic) && i < |t.primary|
    ensures var r := Jump(t, Masks(t, lqic, lca), i, j, i);
      && r.2 == Row(t, r.0)
      && (r.0 >= |t.primary| ==> r.0 == |t.primary| && r.1 == 0)
      && forall i': nat, j': nat :: i' < |t.primary| && j' < |t.primary| && Before(i, j, i', j') && Before(i', j', r.0, r.1)
           ==> !Offered(t, i', j', lqic, lca)
    decreases |t.primary| - i, if j < |t.primary| then |t.primary| - j else 0
  {
    var m := Masks(t, lqic, lca);
    if j + 1 >= |t.primary| {
      if i + 1 < |t.primary| && !m[i + 1][0] {
        JumpInStep(t, lqic, lca, i + 1, 0);
      }
    } else if !m[i][j + 1] {
      JumpInStep(t, lqic, lca, i, j + 1);
    }
  }

  // ------------------------------------------------------------------
  // The SPR tree and its iterator.
  // ------------------------------------------------------------------

  /** SPRtree: the base tree, the tree of the last move, the prune edge i and its mask. */
  class SprTree {
    const tree: Topo
    const lca: (nat, nat) -> nat
    var current: Topo
    var sprOk: seq<bool>
    var i: nat
    var lqic: seq<real>

    ghost predicate Valid()
      reads this
    {
      && ValidTopology(tree) && |tree.primary| > 0 && ScoresFit(tree, lqic)
      && IsMask(sprOk, tree, Row(tree, i), lqic, lca)
    }

    /** SPRtree(tree, i): both trees are the given one, and the mask is filled for i. */
    constructor (t: Topo, i0: nat, lca: (nat, nat) -> nat)
      requires ValidTopology(t) && i0 < |t.primary|
      ensures Valid() && tree == t && current == t && i == i0 && lqic == [] && this.lca == lca
    {
      var ok := FillMask(t, i0, [], lca);
      tree, this.lca, current, i, lqic, sprOk := t, lca, t, i0, [], ok;
    }

    /** The copy constructor. */
    constructor Copy(m: SprTree)
      ensures tree == m.tree && lca == m.lca && current == m.current
      ensures sprOk == m.sprOk && i == m.i && lqic == m.lqic
    {
      tree, lca, current, sprOk, i, lqic := m.tree, m.lca, m.current, m.sprOk, m.i, m.lqic;
    }

    /** get(): the tree of the last move. */
    method Get() returns (t: Topo)
      ensures t == current
    {
      t := current;
    }

    method FillSprOkForI()
      requires ValidTopology(tree) && i < |tree.primary| && ScoresFit(tree, lqic)
      modifies this
      ensures current == old(current) && i == old(i) && lqic == old(lqic)
      ensures Valid() && IsMask(sprOk, tree, i, lqic, lca)
    {
      sprOk := FillMask(tree, i, lqic, lca);
    }

    /** next_i: move to the next prune edge; past the last edge the mask is left as it is. */
    method NextI()
      requires Valid()
      modifies this
      ensures Valid() && i == old(i) + 1 && current == old(current) && lqic == old(lqic)
      ensures i >= |tree.primary| ==> sprOk == old(sprOk)
    {
      i := i + 1;
      if i < |tree.primary| {
        FillSprOkForI();
      }
    }

    /** restrict_by_lqic: install the score vector and refill the mask. */
    method RestrictByLqic(l: seq<real>)
      requires Valid() && i < |tree.primary| && ScoresFit(tree, l)
      modifies this
      ensures Valid() && lqic == l && i == old(i) && current == old(current)
    {
      lqic := l;
      FillSprOkForI();
    }

    /** begin(): an iterator at (0, 0) over a copy of this SPR tree. */
    method Begin() returns (it: SprIterator)
      requires Valid()
      ensures fresh(it) && fresh(it.tree) && it.Valid() && it.tree.tree == tree && it.tree.lqic == lqic
      ensures (it.i, it.j, it.tree.i) ==
        (if Offered(tree, Row(tree, i), 0, lqic, lca) then (0, 0, i) else Jump(tree, Masks(tree, lqic, lca), 0, 0, i))
    {
      it := new SprIterator.Init(this, 0, 0);
    }

    /** end(): an iterator at (edge count, 0); if the mask withholds 0 it skips on, staying past the end. */
    method End() returns (it: SprIterator)
      requires Valid()
      ensures fresh(it) && fresh(it.tree) && it.Valid() && it.tree.tree == tree && it.tree.lqic == lqic
      ensures (it.i, it.j, it.tree.i) ==
        (if Offered(tree, Row(tree, i), 0, lqic, lca) then (|tree.primary|, 0, i)
         else Jump(tree, Masks(tree, lqic, lca), |tree.primary|, 0, i))
      ensures it.i >= |tree.primary|
    {
      it := new SprIterator.Init(this, |tree.primary|, 0);
      JumpAdvances(tree, lqic, lca, |tree.primary|, 0, i);
    }
  }

  /** SPRiterator: a copy of an SPR tree and the position (i, j). */
  class SprIterator {
    var tree: SprTree
    var i: nat
    var j: nat

    ghost predicate Valid()
      reads this, tree
    {
      tree.Valid() && j < |tree.tree.primary|
    }

    /** SPRiterator(tree, i, j): copy the SPR tree and move on unless (i, j) is offered. */
    constructor Init(tr: SprTree, i0: nat, j0: nat)
      requires tr.Valid() && j0 < |tr.tree.primary|
      ensures fresh(tree) && Valid()
      ensures tree.tree == tr.tree && tree.lca == tr.lca && tree.current == tr.current && tree.lqic == tr.lqic
      ensures (i, j, tree.i) ==
        (if Offered(tr.tree, Row(tr.tree, tr.i), j0, tr.lqic, tr.lca) then (i0, j0, tr.i)
         else Jump(tr.tree, Masks(tr.tree, tr.lqic, tr.lca), i0, j0, tr.i))
    {
      tree := new SprTree.Copy(tr);
      i, j := i0, j0;
      new;
      if !tree.sprOk[j] {
        JumpToNext();
      }
    }

    /** jump_to_next: advance j, wrapping to the next prune edge (and refilling its mask) until a pair is offered. */
    method JumpToNext()
      requires Valid()
      modifies this, tree
      ensures Valid() && tree == old(tree)
      ensures tree.current == old(tree.current) && tree.lqic == old(tree.lqic)
      ensures (i, j, tree.i) == Jump(tree.tree, Masks(tree.tree, tree.lqic, tree.lca), old(i), old(j), old(tree.i))
    {
      ghost var t, lqic, lca := tree.tree, tree.lqic, tree.lca;
      ghost var m := Masks(t, lqic, lca);
      ghost var r := Jump(t, m, i, j, tree.i);
      TableRow(t, lqic, lca, tree.sprOk, tree.i);
      var n := |tree.tree.primary|;
      while true
        invariant Valid() && tree == old(tree) && tree.tree == t && tree.lca == lca
        invariant tree.current == old(tree.current) && tree.lqic == lqic
        invariant tree.sprOk == m[Row(t, tree.i)]
        invariant Jump(t, m, i, j, tree.i) == r
        decreases if i < n then n - i else 0, n - j
      {
        ghost var i0, j0, ti := i, j, tree.i;
        if j + 1 >= n {
          if i + 1 >= n {
            i, j := i + 1, 0;
            JumpStops(t, m, i0, j0, ti, i, j, ti);
            break;
          }
          i, j := i + 1, 0;
          tree.NextI();
          TableRow(t, lqic, lca, tree.sprOk, tree.i);
        } else {
          j := j + 1;
        }
        if tree.sprOk[j] {
          JumpStops(t, m, i0, j0, ti, i, j, tree.i);
          break;
        }
        JumpContinues(t, m, i0, j0, ti, i, j, tree.i);
      }
    }

    /** operator++: jump, apply the move to a copy of the base tree, and hand out a new iterator at the position. */
    method Increment(spr: (Topo, nat, nat) -> Topo) returns (it: SprIterator)
      requires Valid()
      modifies this, tree
      ensures Valid() && tree == old(tree) && tree.lqic == old(tree.lqic)
      ensures (i, j, tree.i) == Jump(tree.tree, Masks(tree.tree, tree.lqic, tree.lca), old(i), old(j), old(tree.i))
      ensures tree.current == if i < |tree.tree.primary| then spr(tree.tree, i, j) else old(tree.current)
      ensures fresh(it) && fresh(it.tree) && it.Valid() && it.tree.tree == tree.tree && it.tree.current == tree.current
      ensures (it.i, it.j, it.tree.i) ==
        (if Offered(tree.tree, Row(tree.tree, tree.i), j, tree.lqic, tree.lca) then (i, j, tree.i)
         else Jump(tree.tree, Masks(tree.tree, tree.lqic, tree.lca), i, j, tree.i))
    {
      JumpToNext();
      if i < |tree.tree.primary| {
        var t := tree.tree;
        tree.current := spr(t, i, j);
      }
      it := new SprIterator.Init(tree, i, j);
    }

    /** operator==: the same position. */
    predicate Eq(rhs: SprIterator)
      reads this, rhs
    {
      i == rhs.i && j == rhs.j
    }

    /** operator!=: any two iterators past the last prune edge compare equal. */
    predicate NotEq(rhs: SprIterator)
      reads this, rhs, tree, rhs.tree
      ensures NotEq(rhs) ==> !Eq(rhs)
    {
      if i >= |tree.tree.primary| && rhs.i >= |rhs.tree.tree.primary| then false
      else i != rhs.i || j != rhs.j
    }
  }

  /** != is the negation of == except that every iterator past the end equals every other. */
  lemma NotEqMeaning(a: SprIterator, b: SprIterator)
    ensures a.NotEq(b) <==> !a.Eq(b) && !(a.i >= |a.tree.tree.primary| && b.i >= |b.tree.tree.primary|)
  {
  }
}
