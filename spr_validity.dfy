/**
 * Why the non-root case of new_spr keeps the tree valid.
 *
 * Around the prune edge, u has its up-link (secondary end of the parent edge
 * eP, whose primary node is g), the prune link p (to v) and one more child
 * link c (the sibling edge eW, to w). The regraft edge runs from y to x. The
 * three reconnections rotate the secondary ends of eP, the regraft edge and
 * eW: eP takes w's up-link, the regraft edge takes u's up-link and eW takes
 * x's up-link. On the parent map, w moves up to g, u moves under y and x
 * moves under u.
 */
module SprValidity {
  import opened ParentMaps
  import opened Topology
  import opened Spr

  /** Edge e1 takes e3's secondary end, e2 takes e1's and e3 takes e2's; primaries stay. */
  function RotateSecondaries(t: Topo, e1: nat, e2: nat, e3: nat): (r: Topo)
    requires WellFormed(t) && e1 < |t.primary| && e2 < |t.primary| && e3 < |t.primary|
  {
    var a1, a2, a3 := t.primary[e1], t.primary[e2], t.primary[e3];
    var b1, b2, b3 := t.secondary[e1], t.secondary[e2], t.secondary[e3];
    t.(outer := t.outer[a1 := b3][b3 := a1][a2 := b1][b1 := a2][a3 := b2][b2 := a3],
       secondary := t.secondary[e1 := b3][e2 := b1][e3 := b2],
       edge := t.edge[b3 := e1][b1 := e2][b2 := e3])
  }

  /** The edge facts every rotation lemma relies on: three distinct edges of a tree whose ends are consistent. */
  predicate RotationBase(t: Topo, e1: nat, e2: nat, e3: nat)
  {
    && WellFormed(t) && OuterPairs(t) && EdgeEnds(t) && LinksOnEdges(t)
    && e1 < |t.primary| && e2 < |t.primary| && e3 < |t.primary|
    && e1 != e2 && e2 != e3 && e1 != e3
  }

  /** The six ends of the three edges are pairwise distinct links. */
  lemma RotationLinks(t: Topo, e1: nat, e2: nat, e3: nat)
    requires RotationBase(t, e1, e2, e3)
    ensures var a1, a2, a3 := t.primary[e1], t.primary[e2], t.primary[e3];
      var b1, b2, b3 := t.secondary[e1], t.secondary[e2], t.secondary[e3];
      && a1 != a2 && a1 != a3 && a2 != a3 && b1 != b2 && b1 != b3 && b2 != b3
      && a1 != b1 && a1 != b2 && a1 != b3 && a2 != b1 && a2 != b2 && a2 != b3
      && a3 != b1 && a3 != b2 && a3 != b3
  {
    var a1, a2, a3 := t.primary[e1], t.primary[e2], t.primary[e3];
    assert t.edge[a1] == e1 && t.edge[a2] == e2 && t.edge[a3] == e3;
    assert t.edge[t.secondary[e1]] == e1 && t.edge[t.secondary[e2]] == e2 && t.edge[t.secondary[e3]] == e3;
    assert t.outer[a1] == t.secondary[e1] && t.outer[a2] == t.secondary[e2] && t.outer[a3] == t.secondary[e3];
  }

  /** A link that is not an end of the three edges lies on another edge, and so does its outer link. */
  lemma OffRotation(t: Topo, e1: nat, e2: nat, e3: nat, l: nat)
    requires RotationBase(t, e1, e2, e3) && l < |t.outer|
    requires l != t.primary[e1] && l != t.primary[e2] && l != t.primary[e3]
    requires l != t.secondary[e1] && l != t.secondary[e2] && l != t.secondary[e3]
    ensures t.edge[l] != e1 && t.edge[l] != e2 && t.edge[l] != e3
    ensures var o := t.outer[l];
      o != t.primary[e1] && o != t.primary[e2] && o != t.primary[e3]
      && o != t.secondary[e1] && o != t.secondary[e2] && o != t.secondary[e3]
  {
    assert t.primary[t.edge[l]] == l || t.secondary[t.edge[l]] == l;
    assert t.outer[t.outer[l]] == l;
    assert t.outer[t.primary[e1]] == t.secondary[e1] && t.outer[t.secondary[e1]] == t.primary[e1];
    assert t.outer[t.primary[e2]] == t.secondary[e2] && t.outer[t.secondary[e2]] == t.primary[e2];
    assert t.outer[t.primary[e3]] == t.secondary[e3] && t.outer[t.secondary[e3]] == t.primary[e3];
  }

  lemma RotateOuterPairs(t: Topo, e1: nat, e2: nat, e3: nat)
    requires RotationBase(t, e1, e2, e3)
    requires t.node[t.primary[e1]] != t.node[t.secondary[e3]]
    requires t.node[t.primary[e2]] != t.node[t.secondary[e1]]
    requires t.node[t.primary[e3]] != t.node[t.secondary[e2]]
    ensures WellFormed(RotateSecondaries(t, e1, e2, e3)) && OuterPairs(RotateSecondaries(t, e1, e2, e3))
  {
    var r := RotateSecondaries(t, e1, e2, e3);
    RotationLinks(t, e1, e2, e3);
    RotateWellFormed(t, e1, e2, e3);
    forall l | 0 <= l < |r.outer|
      ensures r.outer[l] != l && r.outer[r.outer[l]] == l && r.node[r.outer[l]] != r.node[l]
    {
      if l != t.primary[e1] && l != t.primary[e2] && l != t.primary[e3]
         && l != t.secondary[e1] && l != t.secondary[e2] && l != t.secondary[e3] {
        OffRotation(t, e1, e2, e3, l);
      }
    }
  }

  /** The rotated arena still points inside itself. */
  lemma RotateWellFormed(t: Topo, e1: nat, e2: nat, e3: nat)
    requires RotationBase(t, e1, e2, e3)
    ensures WellFormed(RotateSecondaries(t, e1, e2, e3))
  {
    var r := RotateSecondaries(t, e1, e2, e3);
    forall l | 0 <= l < |r.outer|
      ensures r.outer[l] < |r.outer|
    {
      if l != t.primary[e1] && l != t.primary[e2] && l != t.primary[e3]
         && l != t.secondary[e1] && l != t.secondary[e2] && l != t.secondary[e3] {
        OffRotation(t, e1, e2, e3, l);
      }
    }
  }

  lemma RotateEdgeEnds(t: Topo, e1: nat, e2: nat, e3: nat)
    requires RotationBase(t, e1, e2, e3)
    ensures WellFormed(RotateSecondaries(t, e1, e2, e3))
    ensures EdgeEnds(RotateSecondaries(t, e1, e2, e3)) && LinksOnEdges(RotateSecondaries(t, e1, e2, e3))
  {
    var r := RotateSecondaries(t, e1, e2, e3);
    RotateWellFormed(t, e1, e2, e3);
    RotationLinks(t, e1, e2, e3);
    forall e | 0 <= e < |r.primary|
      ensures r.edge[r.primary[e]] == e && r.edge[r.secondary[e]] == e
      ensures r.outer[r.primary[e]] == r.secondary[e]
    {
      if e != e1 && e != e2 && e != e3 {
        assert t.edge[t.primary[e]] == e && t.edge[t.secondary[e]] == e;
      }
    }
    RotateLinksOnEdges(t, e1, e2, e3);
  }

  lemma RotateLinksOnEdges(t: Topo, e1: nat, e2: nat, e3: nat)
    requires RotationBase(t, e1, e2, e3)
    ensures WellFormed(RotateSecondaries(t, e1, e2, e3))
    ensures LinksOnEdges(RotateSecondaries(t, e1, e2, e3))
  {
    var r := RotateSecondaries(t, e1, e2, e3);
    RotateWellFormed(t, e1, e2, e3);
    RotationLinks(t, e1, e2, e3);
    forall l | 0 <= l < |r.edge|
      ensures r.primary[r.edge[l]] == l || r.secondary[r.edge[l]] == l
    {
      if l != t.primary[e1] && l != t.primary[e2] && l != t.primary[e3]
         && l != t.secondary[e1] && l != t.secondary[e2] && l != t.secondary[e3] {
        OffRotation(t, e1, e2, e3, l);
      }
    }
  }

  lemma RotateUpLinks(t: Topo, e1: nat, e2: nat, e3: nat)
    requires RotationBase(t, e1, e2, e3) && UpLinks(t)
    ensures WellFormed(RotateSecondaries(t, e1, e2, e3)) && UpLinks(RotateSecondaries(t, e1, e2, e3))
  {
    RotateWellFormed(t, e1, e2, e3);
    RotateUpsStay(t, e1, e2, e3);
    RotateSecondariesUp(t, e1, e2, e3);
  }

  /** Every non-root node's up-link is still the secondary end of its edge. */
  lemma RotateUpsStay(t: Topo, e1: nat, e2: nat, e3: nat)
    requires RotationBase(t, e1, e2, e3) && UpLinks(t)
    ensures WellFormed(RotateSecondaries(t, e1, e2, e3))
    ensures var r := RotateSecondaries(t, e1, e2, e3);
      forall n :: 0 <= n < |r.up| && n != r.root ==> r.secondary[r.edge[r.up[n]]] == r.up[n]
  {
    var r := RotateSecondaries(t, e1, e2, e3);
    RotateWellFormed(t, e1, e2, e3);
    RotationLinks(t, e1, e2, e3);
    forall n | 0 <= n < |r.up| && n != r.root
      ensures r.secondary[r.edge[r.up[n]]] == r.up[n]
    {
      var l := t.up[n];
      assert t.secondary[t.edge[l]] == l;
      if l != t.primary[e1] && l != t.primary[e2] && l != t.primary[e3]
         && l != t.secondary[e1] && l != t.secondary[e2] && l != t.secondary[e3] {
        OffRotation(t, e1, e2, e3, l);
      }
    }
  }

  /** Every secondary end is still the up-link of its non-root node. */
  lemma RotateSecondariesUp(t: Topo, e1: nat, e2: nat, e3: nat)
    requires RotationBase(t, e1, e2, e3) && UpLinks(t)
    ensures WellFormed(RotateSecondaries(t, e1, e2, e3))
    ensures var r := RotateSecondaries(t, e1, e2, e3);
      forall e :: 0 <= e < |r.secondary| ==>
        r.node[r.secondary[e]] != r.root && r.up[r.node[r.secondary[e]]] == r.secondary[e]
  {
    var r := RotateSecondaries(t, e1, e2, e3);
    RotateWellFormed(t, e1, e2, e3);
    forall e | 0 <= e < |r.secondary|
      ensures r.node[r.secondary[e]] != r.root && r.up[r.node[r.secondary[e]]] == r.secondary[e]
    {
      assert t.node[t.secondary[e1]] != t.root && t.up[t.node[t.secondary[e1]]] == t.secondary[e1];
      assert t.node[t.secondary[e2]] != t.root && t.up[t.node[t.secondary[e2]]] == t.secondary[e2];
      assert t.node[t.secondary[e3]] != t.root && t.up[t.node[t.secondary[e3]]] == t.secondary[e3];
    }
  }

  /** A non-root node other than the three secondary nodes has an up-link off the three edges. */
  lemma UpOffRotation(t: Topo, e1: nat, e2: nat, e3: nat, n: nat)
    requires RotationBase(t, e1, e2, e3) && UpLinks(t) && n < |t.up| && n != t.root
    requires n != t.node[t.secondary[e1]] && n != t.node[t.secondary[e2]] && n != t.node[t.secondary[e3]]
    ensures var l := t.up[n];
      l != t.primary[e1] && l != t.primary[e2] && l != t.primary[e3]
      && l != t.secondary[e1] && l != t.secondary[e2] && l != t.secondary[e3]
  {
    var l := t.up[n];
    assert t.secondary[t.edge[l]] == l;
    RotationLinks(t, e1, e2, e3);
  }

  /** On the parent map, the three secondary nodes take the primary nodes of their new edges as parents. */
  /** The parent map after the rotation: each secondary node hangs from the primary node of its new edge. */
  function RotatedParents(t: Topo, e1: nat, e2: nat, e3: nat): (par: seq<nat>)
    requires WellFormed(t) && e1 < |t.primary| && e2 < |t.primary| && e3 < |t.primary|
    ensures |par| == |t.up|
  {
    var a1, a2, a3 := t.primary[e1], t.primary[e2], t.primary[e3];
    var b1, b2, b3 := t.secondary[e1], t.secondary[e2], t.secondary[e3];
    Parents(t)[t.node[b3] := t.node[a1]][t.node[b1] := t.node[a2]][t.node[b2] := t.node[a3]]
  }

  lemma RotateParents(t: Topo, e1: nat, e2: nat, e3: nat)
    requires RotationBase(t, e1, e2, e3) && UpLinks(t)
    ensures WellFormed(RotateSecondaries(t, e1, e2, e3))
    ensures Parents(RotateSecondaries(t, e1, e2, e3)) == RotatedParents(t, e1, e2, e3)
  {
    var r := RotateSecondaries(t, e1, e2, e3);
    var a1, a2, a3 := t.primary[e1], t.primary[e2], t.primary[e3];
    var b1, b2, b3 := t.secondary[e1], t.secondary[e2], t.secondary[e3];
    RotateEdgeEnds(t, e1, e2, e3);
    RotationLinks(t, e1, e2, e3);
    assert t.node[b1] != t.root && t.up[t.node[b1]] == b1;
    assert t.node[b2] != t.root && t.up[t.node[b2]] == b2;
    assert t.node[b3] != t.root && t.up[t.node[b3]] == b3;
    var par := Parents(t);
    var want := par[t.node[b3] := t.node[a1]][t.node[b1] := t.node[a2]][t.node[b2] := t.node[a3]];
    var pr := Parents(r);
    forall n | 0 <= n < |r.up|
      ensures pr[n] == want[n]
    {
      if n != t.root && n != t.node[b1] && n != t.node[b2] && n != t.node[b3] {
        UpOffRotation(t, e1, e2, e3, n);
      }
    }
  }

  // ------------------------------------------------------------------
  // The facts around a prune edge whose primary node is not the root.
  // ------------------------------------------------------------------

  /**
   * u = prune's primary node (not the root), with up-link on the parent edge
   * eP from g, prune link p to v, and sibling link c on edge eW to w.
   */
  lemma NonRootFacts(t: Topo, prune: nat)
    returns (u: nat, v: nat, w: nat, g: nat, up: nat, c: nat, eP: nat, eW: nat)
    requires ValidTopology(t) && prune < |t.primary| && !PrunesAtRoot(t, prune)
    ensures u == t.node[t.primary[prune]] && v == t.node[t.secondary[prune]] && u != t.root
    ensures up == t.up[u] && up < |t.outer| && c < |t.outer| && eP < |t.primary| && eW < |t.primary|
    ensures eP == t.edge[up] && t.secondary[eP] == up && g == t.node[t.primary[eP]]
    ensures t.outer[up] == t.primary[eP]
    ensures (t.next[t.primary[prune]] == up && t.next[t.next[t.primary[prune]]] == c)
         || (t.next[t.primary[prune]] == c && t.next[t.next[t.primary[prune]]] == up)
    ensures t.next[t.primary[prune]] != t.primary[prune]
    ensures c != up && c != t.primary[prune] && t.node[c] == u
    ensures eW == t.edge[c] && t.primary[eW] == c && t.outer[c] == t.secondary[eW]
    ensures w == t.node[t.secondary[eW]] && t.up[w] == t.secondary[eW] && w != t.root
    ensures t.up[v] == t.secondary[prune] && v != t.root
    ensures prune != eP && prune != eW && eP != eW
    ensures u != v && u != w && v != w && g != u
    ensures u < |t.up| && v < |t.up| && w < |t.up| && g < |t.up|
    ensures Parents(t)[u] == g && Parents(t)[v] == u && Parents(t)[w] == u
  {
    var p := t.primary[prune];
    var s := t.secondary[prune];
    u := t.node[p];
    v := t.node[s];
    up := t.up[u];
    eP := t.edge[up];
    PrimaryIsNotSecondary(t, prune);
    assert t.secondary[eP] == up;
    assert t.node[up] == u;
    g := t.node[t.primary[eP]];
    ParentAcrossUp(t, u);
    assert p != up;
    assert p == up || t.next[p] == up || t.next[t.next[p]] == up;
    assert t.node[t.next[p]] == u;
    InnerCycle(t, p);
    c := if t.next[p] == up then t.next[t.next[p]] else t.next[p];
    eW := t.edge[c];
    if t.secondary[eW] == c {
      SecondaryIsUp(t, c);
      assert false;
    }
    assert t.primary[eW] == c;
    assert t.outer[c] == t.secondary[eW];
    w := t.node[t.secondary[eW]];
    assert t.node[t.secondary[eW]] != t.root && t.up[t.node[t.secondary[eW]]] == t.secondary[eW];
    assert t.node[s] != t.root && t.up[t.node[s]] == s;
    PrimaryIsNotSecondary(t, eW);
    PrimaryIsNotSecondary(t, eP);
    assert t.outer[t.outer[c]] == c;
    assert t.outer[s] == p;
  }

  /** The links on u are p, c and u's up-link. */
  lemma LinksOnPruneNode(t: Topo, prune: nat, u: nat, up: nat, c: nat, l: nat)
    requires ValidTopology(t) && prune < |t.primary| && l < |t.outer| && up < |t.outer| && c < |t.outer|
    requires u == t.node[t.primary[prune]] && up == t.up[u]
    requires (t.next[t.primary[prune]] == up && t.next[t.next[t.primary[prune]]] == c)
          || (t.next[t.primary[prune]] == c && t.next[t.next[t.primary[prune]]] == up)
    requires t.next[t.primary[prune]] != t.primary[prune]
    requires t.node[l] == u
    ensures l == t.primary[prune] || l == c || l == up
  {
    InnerCycle(t, t.primary[prune]);
    assert l == up || t.next[l] == up || t.next[t.next[l]] == up;
    if t.next[l] != l {
      InnerCycle(t, l);
    }
  }

  /** u's only children are v and w. */
  lemma NonRootChildren(t: Topo, prune: nat, u: nat, v: nat, w: nat, up: nat, c: nat, eW: nat)
    requires ValidTopology(t) && prune < |t.primary|
    requires u == t.node[t.primary[prune]] && v == t.node[t.secondary[prune]] && u != t.root
    requires up == t.up[u] && up < |t.outer| && c < |t.outer| && eW < |t.primary|
    requires (t.next[t.primary[prune]] == up && t.next[t.next[t.primary[prune]]] == c)
          || (t.next[t.primary[prune]] == c && t.next[t.next[t.primary[prune]]] == up)
    requires t.next[t.primary[prune]] != t.primary[prune]
    requires eW == t.edge[c] && t.primary[eW] == c && t.outer[c] == t.secondary[eW]
    requires w == t.node[t.secondary[eW]]
    ensures forall z :: 0 <= z < |t.up| && Parents(t)[z] == u ==> z == v || z == w
  {
    var par := Parents(t);
    forall z | 0 <= z < |t.up| && par[z] == u
      ensures z == v || z == w
    {
      assert z != t.root;
      var l := t.outer[t.up[z]];
      assert t.node[t.up[z]] == z;
      assert t.outer[l] == t.up[z];
      LinksOnPruneNode(t, prune, u, up, c, l);
      if l == up {
        assert false;
      }
      if l == t.primary[prune] {
        assert t.outer[l] == t.secondary[prune];
      }
    }
  }

  /** The regraft edge runs from y down to x, which is not the root. */
  lemma RegraftFacts(t: Topo, regraft: nat)
    requires ValidTopology(t) && regraft < |t.primary|
    ensures var x, y := t.node[t.secondary[regraft]], t.node[t.primary[regraft]];
      && x != t.root && t.up[x] == t.secondary[regraft] && Parents(t)[x] == y
  {
    var x := t.node[t.secondary[regraft]];
    assert x != t.root && t.up[x] == t.secondary[regraft];
    assert t.outer[t.outer[t.primary[regraft]]] == t.primary[regraft];
  }

  /** The three reconnections of the non-root case rotate the secondary ends of eP, regraft and eW. */
  lemma SprNonRootIsRotation(t: Topo, prune: nat, regraft: nat, up: nat, c: nat, eP: nat, eW: nat)
    requires ValidTopology(t) && prune < |t.primary| && regraft < |t.primary|
    requires up < |t.outer| && c < |t.outer| && eP < |t.primary| && eW < |t.primary|
    requires up == t.up[t.node[t.primary[prune]]]
    requires eP == t.edge[up] && t.secondary[eP] == up && t.outer[up] == t.primary[eP]
    requires (t.next[t.primary[prune]] == up && t.next[t.next[t.primary[prune]]] == c)
          || (t.next[t.primary[prune]] == c && t.next[t.next[t.primary[prune]]] == up)
    requires eW == t.edge[c] && t.primary[eW] == c && t.outer[c] == t.secondary[eW]
    ensures SprNonRoot(t, prune, regraft) == RotateSecondaries(t, eP, regraft, eW)
  {
    var k := NonRootLinksOf(t, prune, regraft);
    PrimaryIsNotSecondary(t, eW);
    assert t.edge[t.secondary[eW]] == eW && t.edge[t.primary[eP]] == eP;
    assert k.parentLink == t.primary[eP] && k.siblingLink == t.secondary[eW];
    assert k.parentEdge == eP && k.siblingEdge == eW && k.parentSecondary == up;
  }

  /** A rotation keeps a tree valid when the new edges join different nodes and the new parent map reaches the root. */
  lemma RotateValid(t: Topo, e1: nat, e2: nat, e3: nat)
    requires ValidTopology(t)
    requires e1 < |t.primary| && e2 < |t.primary| && e3 < |t.primary| && e1 != e2 && e2 != e3 && e1 != e3
    requires t.node[t.primary[e1]] != t.node[t.secondary[e3]]
    requires t.node[t.primary[e2]] != t.node[t.secondary[e1]]
    requires t.node[t.primary[e3]] != t.node[t.secondary[e2]]
    requires ReachesRoot(RotatedParents(t, e1, e2, e3), t.root)
    ensures WellFormed(RotateSecondaries(t, e1, e2, e3))
    ensures Counts(RotateSecondaries(t, e1, e2, e3))
    ensures OuterPairs(RotateSecondaries(t, e1, e2, e3))
    ensures Rotations(RotateSecondaries(t, e1, e2, e3))
    ensures NodeCycles(RotateSecondaries(t, e1, e2, e3))
    ensures EdgeEnds(RotateSecondaries(t, e1, e2, e3))
    ensures LinksOnEdges(RotateSecondaries(t, e1, e2, e3))
    ensures UpLinks(RotateSecondaries(t, e1, e2, e3))
    ensures Rooted(RotateSecondaries(t, e1, e2, e3))
  {
    assert RotationBase(t, e1, e2, e3);
    RotateOuterPairs(t, e1, e2, e3);
    RotateEdgeEnds(t, e1, e2, e3);
    RotateUpLinks(t, e1, e2, e3);
    RotateParents(t, e1, e2, e3);
  }

  /** The node facts the non-root case needs about the regraft edge. */
  lemma RegraftAwayFromPrune(t: Topo, prune: nat, regraft: nat, u: nat, v: nat, w: nat, g: nat, up: nat, c: nat, eP: nat, eW: nat)
    requires ValidTopology(t) && prune < |t.primary| && regraft < |t.primary|
    requires u == t.node[t.primary[prune]] && v == t.node[t.secondary[prune]] && u != t.root
    requires up == t.up[u] && up < |t.outer| && c < |t.outer| && eP < |t.primary| && eW < |t.primary|
    requires eP == t.edge[up] && t.secondary[eP] == up && g == t.node[t.primary[eP]]
    requires (t.next[t.primary[prune]] == up && t.next[t.next[t.primary[prune]]] == c)
          || (t.next[t.primary[prune]] == c && t.next[t.next[t.primary[prune]]] == up)
    requires t.next[t.primary[prune]] != t.primary[prune]
    requires eW == t.edge[c] && t.primary[eW] == c
    requires w == t.node[t.secondary[eW]] && t.up[w] == t.secondary[eW] && t.up[v] == t.secondary[prune]
    requires u < |t.up| && w < |t.up| && g < |t.up|
    requires Parents(t)[u] == g && Parents(t)[w] == u && w != t.root
    requires regraft != prune && regraft != eP && regraft != eW
    ensures var y, x := t.node[t.primary[regraft]], t.node[t.secondary[regraft]];
      y != u && x != u && x != w && x != v && g != w
  {
    var y, x := t.node[t.primary[regraft]], t.node[t.secondary[regraft]];
    RegraftFacts(t, regraft);
    if y == u {
      LinksOnPruneNode(t, prune, u, up, c, t.primary[regraft]);
      PrimaryIsNotSecondary(t, eP);
      assert false;
    }
    if x == u {
      assert false;
    }
    if g == w {
      TwoCycleUnrooted(Parents(t), t.root, u, w, |t.up|);
      assert false;
    }
  }

  /** The facts about the non-root case, in terms of the rotation it performs. */
  lemma SprNonRootRotates(t: Topo, prune: nat, regraft: nat) returns (eP: nat, eW: nat)
    requires ValidTopology(t) && prune < |t.primary| && regraft < |t.primary| && !PrunesAtRoot(t, prune)
    requires regraft != prune
    requires regraft != PruneSideEdges(t, prune).0 && regraft != PruneSideEdges(t, prune).1
    requires !Below(Parents(t), t.node[t.primary[regraft]], t.node[t.secondary[prune]])
    ensures eP < |t.primary| && eW < |t.primary| && eP != regraft && regraft != eW && eP != eW
    ensures SprNonRoot(t, prune, regraft) == RotateSecondaries(t, eP, regraft, eW)
    ensures ValidTopology(RotateSecondaries(t, eP, regraft, eW))
    ensures var par, par' := Parents(t), Parents(RotateSecondaries(t, eP, regraft, eW));
      var u, v := t.node[t.primary[prune]], t.node[t.secondary[prune]];
      var y, x := t.node[t.primary[regraft]], t.node[t.secondary[regraft]];
      && |par'| == |par|
      && par'[u] == y && par'[x] == u && par'[v] == u
      && (forall z :: 0 <= z < |par| && par[z] == u && z != v ==> par'[z] == par[u])
      && (forall z :: 0 <= z < |par| && z != u && z != x && par[z] != u ==> par'[z] == par[z])
  {
    var u, v, w, g, up, c;
    u, v, w, g, up, c, eP, eW := NonRootFacts(t, prune);
    NonRootChildren(t, prune, u, v, w, up, c, eW);
    RegraftFacts(t, regraft);
    var par := Parents(t);
    var y, x := t.node[t.primary[regraft]], t.node[t.secondary[regraft]];
    RegraftAwayFromPrune(t, prune, regraft, u, v, w, g, up, c, eP, eW);
    SprReachesRoot(par, t.root, u, v, w, g, x, y);
    RotateValid(t, eP, regraft, eW);
    RotateParents(t, eP, regraft, eW);
    SprNonRootIsRotation(t, prune, regraft, up, c, eP, eW);
    MovedParents(par, Parents(RotateSecondaries(t, eP, regraft, eW)), u, v, w, g, x, y);
  }

  /** Reading the parent map of an SPR move: which nodes move and where. */
  lemma MovedParents(par: seq<nat>, par': seq<nat>, u: nat, v: nat, w: nat, g: nat, x: nat, y: nat)
    requires u < |par| && v < |par| && w < |par| && x < |par|
    requires par[v] == u && par[w] == u && par[u] == g
    requires forall z :: 0 <= z < |par| && par[z] == u ==> z == v || z == w
    requires v != w && v != u && w != u && x != u && x != w && x != v
    requires par' == par[w := g][u := y][x := u]
    ensures |par'| == |par| && par'[u] == y && par'[x] == u && par'[v] == u
    ensures forall z :: 0 <= z < |par| && par[z] == u && z != v ==> par'[z] == par[u]
    ensures forall z :: 0 <= z < |par| && z != u && z != x && par[z] != u ==> par'[z] == par[z]
  {
  }

  /**
   * The non-root case of new_spr keeps the tree valid whenever the regraft
   * edge is not prune, not beside it at u, and does not hang from a node of
   * the pruned subtree. Afterwards u hangs from y, x hangs from u, v stays
   * under u, w (u's other child) takes u's old parent, and every other node
   * keeps its parent.
   */
  lemma SprNonRootValid(t: Topo, prune: nat, regraft: nat)
    requires ValidTopology(t) && prune < |t.primary| && regraft < |t.primary| && !PrunesAtRoot(t, prune)
    requires regraft != prune
    requires regraft != PruneSideEdges(t, prune).0 && regraft != PruneSideEdges(t, prune).1
    requires !Below(Parents(t), t.node[t.primary[regraft]], t.node[t.secondary[prune]])
    ensures ValidTopology(SprNonRoot(t, prune, regraft))
    ensures var par, par' := Parents(t), Parents(SprNonRoot(t, prune, regraft));
      var u, v := t.node[t.primary[prune]], t.node[t.secondary[prune]];
      var y, x := t.node[t.primary[regraft]], t.node[t.secondary[regraft]];
      && |par'| == |par|
      && par'[u] == y && par'[x] == u && par'[v] == u
      && (forall z :: 0 <= z < |par| && par[z] == u && z != v ==> par'[z] == par[u])
      && (forall z :: 0 <= z < |par| && z != u && z != x && par[z] != u ==> par'[z] == par[z])
  {
    var eP, eW := SprNonRootRotates(t, prune, regraft);
  }
}
