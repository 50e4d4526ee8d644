/**
 * Subtree prune and regraft (src/spr.hpp).
 *
 * The prune edge i has its primary link p on node u. Pruning detaches u,
 * together with the subtree below i, from the tree, and regrafting inserts u
 * into the regraft edge. `validSprMove` checks that the move makes sense;
 * `new_spr` performs it by three reconnections of edge ends, followed, when u
 * is the root, by a pre-order pass that re-derives edge directions.
 *
 * The genesis primitives reconnect_node_secondary / reconnect_node_primary are
 * not part of this model; they are defined here as rebinding one end of an
 * edge to a given link, with the edge and outer cross-references of both
 * ends updated.
 */
module Spr {
  import opened Topology
  import opened Errors

  // ------------------------------------------------------------------
  // The reconnection primitives.
  // ------------------------------------------------------------------

  /** reconnect_node_secondary(e, l): l becomes the secondary end of e, paired with e's primary link. */
  function ReconnectSecondary(t: Topo, e: nat, l: nat): (r: Topo)
    requires WellFormed(t) && e < |t.primary| && l < |t.outer|
    ensures WellFormed(r)
    ensures r.primary == t.primary && r.next == t.next && r.node == t.node && r.up == t.up && r.root == t.root
    ensures r.secondary[e] == l && r.edge[l] == e
    ensures r.outer[l] == t.primary[e] && (t.primary[e] != l ==> r.outer[t.primary[e]] == l)
  {
    t.(secondary := t.secondary[e := l],
       edge := t.edge[l := e],
       outer := t.outer[t.primary[e] := l][l := t.primary[e]])
  }

  /** reconnect_node_primary(e, l): l becomes the primary end of e, paired with e's secondary link. */
  function ReconnectPrimary(t: Topo, e: nat, l: nat): (r: Topo)
    requires WellFormed(t) && e < |t.primary| && l < |t.outer|
    ensures WellFormed(r)
    ensures r.secondary == t.secondary && r.next == t.next && r.node == t.node && r.up == t.up && r.root == t.root
    ensures r.primary[e] == l && r.edge[l] == e
    ensures r.outer[l] == t.secondary[e] && (t.secondary[e] != l ==> r.outer[t.secondary[e]] == l)
  {
    t.(primary := t.primary[e := l],
       edge := t.edge[l := e],
       outer := t.outer[t.secondary[e] := l][l := t.secondary[e]])
  }

  method ReconnectNodeSecondary(tree: Tree, e: nat, l: nat)
    requires WellFormed(tree.Snapshot()) && e < |tree.primary| && l < |tree.outer|
    modifies tree
    ensures tree.Snapshot() == ReconnectSecondary(old(tree.Snapshot()), e, l)
  {
    var p := tree.primary[e];
    tree.secondary := tree.secondary[e := l];
    tree.edge := tree.edge[l := e];
    tree.outer := tree.outer[p := l][l := p];
  }

  method ReconnectNodePrimary(tree: Tree, e: nat, l: nat)
    requires WellFormed(tree.Snapshot()) && e < |tree.primary| && l < |tree.outer|
    modifies tree
    ensures tree.Snapshot() == ReconnectPrimary(old(tree.Snapshot()), e, l)
  {
    var s := tree.secondary[e];
    tree.primary := tree.primary[e := l];
    tree.edge := tree.edge[l := e];
    tree.outer := tree.outer[s := l][l := s];
  }

  // ------------------------------------------------------------------
  // The Euler tour below the prune edge and validSprMove.
  // ------------------------------------------------------------------

  /** One step of genesis' Euler tour: cross the edge, then turn to the next link around the node. */
  function TourStep(t: Topo, l: nat): (l': nat)
    requires WellFormed(t) && l < |t.outer|
    ensures l' < |t.outer|
  {
    t.next[t.outer[l]]
  }

  /**
   * Whether the tour from prune's primary link, at link l after k steps,
   * meets the regraft edge before it comes back through prune's secondary
   * link. The tour ends when it returns to its start; since the tour step is
   * a permutation of the links on a valid tree, that happens within |links|
   * steps, which bounds the recursion.
   */
  function TourMeets(t: Topo, prune: nat, regraft: nat, l: nat, k: nat): bool
    requires WellFormed(t) && prune < |t.primary| && l < |t.outer|
    decreases |t.outer| - k
  {
    if k > 0 && l == t.primary[prune] then false
    else if k >= |t.outer| then false
    else if t.edge[l] == prune && l == t.secondary[prune] then false
    else if t.edge[l] == regraft then true
    else TourMeets(t, prune, regraft, TourStep(t, l), k + 1)
  }

  /**
   * The edges the same tour passes before the break: prune itself and the
   * edges of the subtree below it. The candidate mask of the SPR iterator
   * clears exactly these.
   */
  function TourEdges(t: Topo, prune: nat, l: nat, k: nat): (es: set<nat>)
    requires WellFormed(t) && prune < |t.primary| && l < |t.outer|
    ensures forall e :: e in es ==> e < |t.primary|
    decreases |t.outer| - k
  {
    if k > 0 && l == t.primary[prune] then {}
    else if k >= |t.outer| then {}
    else if t.edge[l] == prune && l == t.secondary[prune] then {}
    else {t.edge[l]} + TourEdges(t, prune, TourStep(t, l), k + 1)
  }

  /** The tour meets an edge exactly when that edge is among the tour's edges. */
  lemma {:induction false} TourMeetsIffTourEdge(t: Topo, prune: nat, regraft: nat, l: nat, k: nat)
    requires WellFormed(t) && prune < |t.primary| && l < |t.outer|
    ensures TourMeets(t, prune, regraft, l, k) <==> regraft in TourEdges(t, prune, l, k)
    decreases |t.outer| - k
  {
    if !(k > 0 && l == t.primary[prune]) && k < |t.outer| && !(t.edge[l] == prune && l == t.secondary[prune]) {
      TourMeetsIffTourEdge(t, prune, regraft, TourStep(t, l), k + 1);
    }
  }

  /** The other two links around prune's primary node. */
  function PruneSideEdges(t: Topo, prune: nat): (r: (nat, nat))
    requires WellFormed(t) && prune < |t.primary|
    ensures r.0 < |t.primary| && r.1 < |t.primary|
  {
    var p := t.primary[prune];
    (t.edge[t.next[p]], t.edge[t.next[t.next[p]]])
  }

  /** validSprMove: a read-only check with early returns and an Euler-tour scan. */
  function ValidSprMove(t: Topo, prune: nat, regraft: nat): (r: bool)
    requires WellFormed(t)
    ensures r ==> prune < |t.primary| && regraft < |t.primary| && prune != regraft
  {
    if prune >= |t.primary| || regraft >= |t.primary| then false
    else if prune == regraft then false
    else if regraft == PruneSideEdges(t, prune).0 then false
    else if regraft == PruneSideEdges(t, prune).1 then false
    else !TourMeets(t, prune, regraft, t.primary[prune], 0)
  }

  /**
   * validSprMove accepts exactly the pairs of edges in range where regraft is
   * neither prune, nor an edge at prune's primary node, nor an edge on the
   * tour below prune.
   */
  lemma ValidSprMoveIff(t: Topo, prune: nat, regraft: nat)
    requires WellFormed(t)
    ensures ValidSprMove(t, prune, regraft) <==>
      && prune < |t.primary| && regraft < |t.primary|
      && regraft != prune
      && regraft != PruneSideEdges(t, prune).0 && regraft != PruneSideEdges(t, prune).1
      && regraft !in TourEdges(t, prune, t.primary[prune], 0)
  {
    if prune < |t.primary| && regraft < |t.primary| {
      TourMeetsIffTourEdge(t, prune, regraft, t.primary[prune], 0);
    }
  }

  /** The tour's first link is prune's primary link, whose edge is prune: the tour always meets prune. */
  lemma PruneOnTour(t: Topo, prune: nat)
    requires ValidTopology(t) && prune < |t.primary|
    ensures prune in TourEdges(t, prune, t.primary[prune], 0)
  {
    PrimaryIsNotSecondary(t, prune);
  }

  // ------------------------------------------------------------------
  // new_spr, non-root case.
  // ------------------------------------------------------------------

  /** Whether new_spr takes its root case: prune's primary node is the root. */
  predicate PrunesAtRoot(t: Topo, prune: nat)
    requires WellFormed(t) && prune < |t.primary|
  {
    t.node[t.primary[prune]] == t.root
  }

  /**
   * The links new_spr's non-root case works with: the primary link of the
   * edge above u (the parent link), the secondary link of u's other child
   * edge (the sibling link), those two edges, and the secondary links of
   * the parent edge and of the regraft edge.
   */
  datatype NonRootLinks = NonRootLinks(
    parentLink: nat, siblingLink: nat, parentEdge: nat, siblingEdge: nat,
    parentSecondary: nat, regraftSecondary: nat)

  function NonRootLinksOf(t: Topo, prune: nat, regraft: nat): (k: NonRootLinks)
    requires WellFormed(t) && prune < |t.primary| && regraft < |t.primary|
    ensures k.parentLink < |t.outer| && k.siblingLink < |t.outer|
    ensures k.parentEdge < |t.primary| && k.siblingEdge < |t.primary|
    ensures k.parentSecondary < |t.outer| && k.regraftSecondary < |t.outer|
  {
    var p := t.primary[prune];
    var no := t.outer[t.next[p]];
    var nno := t.outer[t.next[t.next[p]]];
    var isParent := no == t.primary[t.edge[t.up[t.node[p]]]];
    var parentLink := if isParent then no else nno;
    var siblingLink := if isParent then nno else no;
    var parentEdge := t.edge[parentLink];
    NonRootLinks(parentLink, siblingLink, parentEdge, t.edge[siblingLink],
                 t.secondary[parentEdge], t.secondary[regraft])
  }

  /**
   * The non-root case: the sibling takes u's place below the parent, u is
   * inserted into the regraft edge with its old up-link, and the edge that
   * led to the sibling now leads from u to the regraft edge's old lower end.
   */
  function SprNonRoot(t: Topo, prune: nat, regraft: nat): (r: Topo)
    requires WellFormed(t) && prune < |t.primary| && regraft < |t.primary|
    ensures WellFormed(r)
  {
    var k := NonRootLinksOf(t, prune, regraft);
    var t1 := ReconnectSecondary(t, k.parentEdge, k.siblingLink);
    var t2 := ReconnectSecondary(t1, regraft, k.parentSecondary);
    ReconnectSecondary(t2, k.siblingEdge, k.regraftSecondary)
  }

  // ------------------------------------------------------------------
  // new_spr, root case.
  // ------------------------------------------------------------------

  /**
   * The three reconnections of the root case. The root's second child link
   * itself (not its outer link) becomes the regraft edge's secondary end, so
   * the root moves into the regraft edge; the two other root children are
   * joined by one edge.
   */
  function RootReconnect(t: Topo, prune: nat, regraft: nat): (r: Topo)
    requires WellFormed(t) && prune < |t.primary| && regraft < |t.primary|
    ensures WellFormed(r)
    ensures r.next == t.next && r.node == t.node && r.up == t.up && r.root == t.root
    ensures |r.outer| == |t.outer| && |r.primary| == |t.primary|
  {
    var p := t.primary[prune];
    var no := t.outer[t.next[p]];
    var nno := t.next[t.next[p]];
    var edgeN := t.edge[no];
    var edgeNN := t.edge[nno];
    var rs := t.secondary[regraft];
    var t1 := ReconnectPrimary(t, edgeNN, no);
    var t2 := ReconnectSecondary(t1, regraft, nno);
    ReconnectSecondary(t2, edgeN, rs)
  }

  /** The links the genesis pre-order iterator pushes when it reaches link l: the outer links of l's successors. */
  function Children(t: Topo, l: nat): (cs: seq<nat>)
    requires WellFormed(t) && l < |t.outer|
    ensures forall k :: 0 <= k < |cs| ==> cs[k] < |t.outer|
  {
    if t.next[l] == l then [] else [t.outer[t.next[l]], t.outer[t.next[t.next[l]]]]
  }

  /** The body of the pre-order pass for the link l it is at. */
  function Visit(t: Topo, l: nat): (r: Topo)
    requires WellFormed(t) && l < |t.outer|
    ensures WellFormed(r)
    ensures r.outer == t.outer && r.next == t.next && r.node == t.node && r.edge == t.edge && r.root == t.root
    ensures |r.primary| == |t.primary| && |r.up| == |t.up|
  {
    var n := t.node[l];
    var e := t.edge[l];
    var t1 := if l != t.secondary[e] && n != t.root
              then t.(primary := t.primary[e := t.secondary[e]], secondary := t.secondary[e := t.primary[e]])
              else t;
    if t1.up[n] != t1.primary[e] && n != t.root then t1.(up := t1.up[n := t1.secondary[e]]) else t1
  }

  /**
   * The pre-order pass from the visit of link l with the rest of the stack,
   * after c visits: the tree it leaves behind and whether it finished without
   * exceeding |links| visits.
   */
  function Pass(t: Topo, l: nat, stack: seq<nat>, c: nat): (r: (Topo, bool))
    requires WellFormed(t) && l < |t.outer| && c <= |t.outer|
    requires forall k :: 0 <= k < |stack| ==> stack[k] < |t.outer|
    ensures WellFormed(r.0)
    ensures r.0.outer == t.outer && r.0.next == t.next && r.0.node == t.node && r.0.edge == t.edge
    ensures r.0.root == t.root && |r.0.primary| == |t.primary| && |r.0.up| == |t.up|
    decreases |t.outer| - c
  {
    var t' := Visit(t, l);
    if c + 1 > |t.outer| then (t', false)
    else if stack == [] then (t', true)
    else Pass(t', stack[0], Children(t', stack[0]) + stack[1..], c + 1)
  }

  /** The tree and outcome of the root case: reconnections, then the pass from the root's primary link. */
  function SprRoot(t: Topo, prune: nat, regraft: nat): (r: (Topo, bool))
    requires WellFormed(t) && prune < |t.primary| && regraft < |t.primary|
    ensures WellFormed(r.0)
  {
    var t3 := RootReconnect(t, prune, regraft);
    var start := t3.up[t3.root];
    Pass(t3, start, Children(t3, start) + [t3.outer[start]], 0)
  }

  /** A visit at a non-root node makes its link the secondary end of its edge and the node's up-link. */
  lemma VisitOrients(t: Topo, l: nat)
    requires WellFormed(t) && l < |t.outer| && t.node[l] != t.root
    requires t.node[t.up[t.node[l]]] == t.node[l]
    requires || (t.primary[t.edge[l]] == l && t.node[t.secondary[t.edge[l]]] != t.node[l])
             || (t.secondary[t.edge[l]] == l && t.node[t.primary[t.edge[l]]] != t.node[l])
    ensures var r := Visit(t, l);
      r.secondary[t.edge[l]] == l && r.up[t.node[l]] == l
      && r.primary[t.edge[l]] == (if t.primary[t.edge[l]] == l then t.secondary[t.edge[l]] else t.primary[t.edge[l]])
  {
  }

  /** A visit at the root changes nothing. */
  lemma VisitAtRoot(t: Topo, l: nat)
    requires WellFormed(t) && l < |t.outer| && t.node[l] == t.root
    ensures Visit(t, l) == t
  {
  }

  /** The pass gives up only after |links| visits: with at most that many links to visit it finishes. */
  lemma {:induction false} PassFinishes(t: Topo, l: nat, stack: seq<nat>, c: nat)
    requires WellFormed(t) && l < |t.outer| && c <= |t.outer|
    requires forall k :: 0 <= k < |stack| ==> stack[k] < |t.outer|
    requires !Pass(t, l, stack, c).1
    ensures c + 1 > |t.outer| || stack != []
    decreases |t.outer| - c
  {
  }

  /** The stack after popping its top and pushing the top's children still holds links only. */
  lemma NextStackBelow(t: Topo, stack: seq<nat>)
    requires WellFormed(t) && stack != [] && forall k :: 0 <= k < |stack| ==> stack[k] < |t.outer|
    ensures forall k :: 0 <= k < |Children(t, stack[0]) + stack[1..]| ==> (Children(t, stack[0]) + stack[1..])[k] < |t.outer|
  {
  }

  const SprNotPossible := "SPR not possible"

  /** The three reconnections of the non-root case, on the tree object. */
  method SprNonRootInPlace(tree: Tree, prune: nat, regraft: nat)
    requires WellFormed(tree.Snapshot()) && prune < |tree.primary| && regraft < |tree.primary|
    modifies tree
    ensures tree.Snapshot() == SprNonRoot(old(tree.Snapshot()), prune, regraft)
  {
    var p := tree.primary[prune];
    var no := tree.outer[tree.next[p]];
    var nno := tree.outer[tree.next[tree.next[p]]];
    var parentLink, siblingLink;
    if no == tree.primary[tree.edge[tree.up[tree.node[p]]]] {
      parentLink, siblingLink := no, nno;
    } else {
      parentLink, siblingLink := nno, no;
    }
    var siblingEdge := tree.edge[siblingLink];
    var parentEdge := tree.edge[parentLink];
    var parentSecondary := tree.secondary[parentEdge];
    var regraftSecondary := tree.secondary[regraft];
    ReconnectNodeSecondary(tree, parentEdge, siblingLink);
    ReconnectNodeSecondary(tree, regraft, parentSecondary);
    ReconnectNodeSecondary(tree, siblingEdge, regraftSecondary);
  }

  /** The three reconnections of the root case, on the tree object. */
  method RootReconnectInPlace(tree: Tree, prune: nat, regraft: nat)
    requires WellFormed(tree.Snapshot()) && prune < |tree.primary| && regraft < |tree.primary|
    modifies tree
    ensures tree.Snapshot() == RootReconnect(old(tree.Snapshot()), prune, regraft)
  {
    var p := tree.primary[prune];
    var no := tree.outer[tree.next[p]];
    var nno := tree.next[tree.next[p]];
    var edgeN := tree.edge[no];
    var edgeNN := tree.edge[nno];
    var regraftSecondary := tree.secondary[regraft];
    ReconnectNodePrimary(tree, edgeNN, no);
    ReconnectNodeSecondary(tree, regraft, nno);
    ReconnectNodeSecondary(tree, edgeN, regraftSecondary);
  }

  /** The body of the pre-order pass, on the tree object. */
  method VisitInPlace(tree: Tree, l: nat)
    requires WellFormed(tree.Snapshot()) && l < |tree.outer|
    modifies tree
    ensures tree.Snapshot() == Visit(old(tree.Snapshot()), l)
  {
    var n := tree.node[l];
    var e := tree.edge[l];
    if l != tree.secondary[e] && n != tree.root {
      var lp := tree.primary[e];
      var ls := tree.secondary[e];
      tree.primary := tree.primary[e := ls];
      tree.secondary := tree.secondary[e := lp];
    }
    if tree.up[n] != tree.primary[e] && n != tree.root {
      tree.up := tree.up[n := tree.secondary[e]];
    }
  }

  /**
   * The pre-order pass from the root's primary link, counting visits and
   * failing once they exceed |links|.
   */
  method PreorderPass(tree: Tree) returns (res: Result<()>)
    requires WellFormed(tree.Snapshot())
    modifies tree
    ensures var start := old(tree.up[tree.root]);
      var r := Pass(old(tree.Snapshot()), start, Children(old(tree.Snapshot()), start) + [old(tree.outer[start])], 0);
      tree.Snapshot() == r.0 && (res.Ok? <==> r.1)
    ensures res.Err? ==> res.msg == SprNotPossible
  {
    ghost var t0 := tree.Snapshot();
    var l: nat := tree.up[tree.root];
    var stack: seq<nat> := Children(tree.Snapshot(), l) + [tree.outer[l]];
    ghost var want := Pass(t0, l, stack, 0);
    var c: nat := 0;
    while true
      invariant WellFormed(tree.Snapshot()) && l < |tree.outer| && c <= |tree.outer|
      invariant |tree.outer| == |t0.outer|
      invariant forall k :: 0 <= k < |stack| ==> stack[k] < |tree.outer|
      invariant Pass(tree.Snapshot(), l, stack, c) == want
      decreases |tree.outer| - c
    {
      var done, ok;
      done, ok, l, stack, c := PassStep(tree, l, stack, c);
      if done {
        return if ok then Ok(()) else Err(SprNotPossible);
      }
    }
  }

  /**
   * One visit of the pre-order pass: either the pass ends here, with the
   * outcome the specification gives, or it goes on from the next link.
   */
  method PassStep(tree: Tree, l: nat, stack: seq<nat>, c: nat)
    returns (done: bool, ok: bool, l': nat, stack': seq<nat>, c': nat)
    requires WellFormed(tree.Snapshot()) && l < |tree.outer| && c <= |tree.outer|
    requires forall k :: 0 <= k < |stack| ==> stack[k] < |tree.outer|
    modifies tree
    ensures WellFormed(tree.Snapshot()) && |tree.outer| == old(|tree.outer|)
    ensures done ==> (tree.Snapshot(), ok) == Pass(old(tree.Snapshot()), l, stack, c)
    ensures !done ==> l' < |tree.outer| && c' <= |tree.outer| && c' == c + 1
    ensures !done ==> forall k :: 0 <= k < |stack'| ==> stack'[k] < |tree.outer|
    ensures !done ==> Pass(tree.Snapshot(), l', stack', c') == Pass(old(tree.Snapshot()), l, stack, c)
  {
    ghost var t := tree.Snapshot();
    VisitInPlace(tree, l);
    ghost var v := tree.Snapshot();
    l', stack', c' := l, stack, c + 1;
    if c' > |tree.outer| {
      assert Pass(t, l, stack, c) == (v, false);
      return true, false, l', stack', c';
    }
    if stack == [] {
      assert Pass(t, l, stack, c) == (v, true);
      return true, true, l', stack', c';
    }
    NextStackBelow(v, stack);
    done, ok := false, false;
    l', stack' := stack[0], Children(tree.Snapshot(), stack[0]) + stack[1..];
    assert Pass(t, l, stack, c) == Pass(v, l', stack', c');
  }

  /**
   * new_spr: in place. The root case fails with "SPR not possible", leaving
   * the partly re-oriented tree behind, once the pre-order pass exceeds
   * |links| visits.
   */
  method NewSpr(tree: Tree, prune: nat, regraft: nat) returns (res: Result<()>)
    requires WellFormed(tree.Snapshot()) && prune < |tree.primary| && regraft < |tree.primary|
    modifies tree
    ensures !PrunesAtRoot(old(tree.Snapshot()), prune) ==>
      res.Ok? && tree.Snapshot() == SprNonRoot(old(tree.Snapshot()), prune, regraft)
    ensures PrunesAtRoot(old(tree.Snapshot()), prune) ==>
      tree.Snapshot() == SprRoot(old(tree.Snapshot()), prune, regraft).0
      && (res.Ok? <==> SprRoot(old(tree.Snapshot()), prune, regraft).1)
    ensures res.Err? ==> res.msg == SprNotPossible
  {
    if tree.node[tree.primary[prune]] != tree.root {
      SprNonRootInPlace(tree, prune, regraft);
      return Ok(());
    }
    RootReconnectInPlace(tree, prune, regraft);
    res := PreorderPass(tree);
  }
}
