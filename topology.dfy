/**
 * The unrooted binary tree as the genesis library stores it: an arena of
 * links (directed half-edges), edges and nodes addressed by index.
 *
 * - every link knows the link at the other end of its edge (`outer`), the
 *   next link around its node (`next`), its node and its edge;
 * - every edge has a `primary` link on the root-ward node and a `secondary`
 *   link on the leaf-ward node;
 * - every node has a primary link `up` (genesis `node.link()`): for a
 *   non-root node, the secondary link of the edge above it.
 */
module Topology {
  import opened ParentMaps

  datatype Topo = Topo(
    outer: seq<nat>,      // per link
    next: seq<nat>,       // per link
    node: seq<nat>,       // per link
    edge: seq<nat>,       // per link
    primary: seq<nat>,    // per edge
    secondary: seq<nat>,  // per edge
    up: seq<nat>,         // per node
    root: nat)            // the root node

  /** Every index field points inside the arena. */
  predicate WellFormed(t: Topo)
  {
    && |t.next| == |t.outer| && |t.node| == |t.outer| && |t.edge| == |t.outer|
    && |t.secondary| == |t.primary|
    && t.root < |t.up|
    && (forall l :: 0 <= l < |t.outer| ==> t.outer[l] < |t.outer|)
    && (forall l :: 0 <= l < |t.next| ==> t.next[l] < |t.outer|)
    && (forall l :: 0 <= l < |t.node| ==> t.node[l] < |t.up|)
    && (forall l :: 0 <= l < |t.edge| ==> t.edge[l] < |t.primary|)
    && (forall e :: 0 <= e < |t.primary| ==> t.primary[e] < |t.outer|)
    && (forall e :: 0 <= e < |t.secondary| ==> t.secondary[e] < |t.outer|)
    && (forall n :: 0 <= n < |t.up| ==> t.up[n] < |t.outer|)
  }

  /** Two links per edge, one more node than edges. */
  predicate Counts(t: Topo)
  {
    |t.outer| == 2 * |t.primary| && |t.up| == |t.primary| + 1
  }

  /** `outer` pairs up the links, never within one node. */
  predicate OuterPairs(t: Topo)
    requires WellFormed(t)
  {
    forall l :: 0 <= l < |t.outer| ==>
      t.outer[l] != l && t.outer[t.outer[l]] == l && t.node[t.outer[l]] != t.node[l]
  }

  /** `next` stays on the node and cycles with period 1 (leaf) or 3 (inner node). */
  predicate Rotations(t: Topo)
    requires WellFormed(t)
  {
    forall l :: 0 <= l < |t.next| ==>
      && t.node[t.next[l]] == t.node[l]
      && (t.next[l] == l || (t.next[t.next[l]] != l && t.next[t.next[t.next[l]]] == l))
  }

  /** A node's links form one cycle: the node's primary link is on every link's cycle. */
  predicate NodeCycles(t: Topo)
    requires WellFormed(t)
  {
    forall l :: 0 <= l < |t.node| ==>
      var u := t.up[t.node[l]];
      l == u || t.next[l] == u || t.next[t.next[l]] == u
  }

  /** Each edge owns its two ends, which are `outer` partners. */
  predicate EdgeEnds(t: Topo)
    requires WellFormed(t)
  {
    forall e :: 0 <= e < |t.primary| ==>
      && t.edge[t.primary[e]] == e
      && t.edge[t.secondary[e]] == e
      && t.outer[t.primary[e]] == t.secondary[e]
  }

  /** Each link is one of the two ends of its edge. */
  predicate LinksOnEdges(t: Topo)
    requires WellFormed(t)
  {
    forall l :: 0 <= l < |t.edge| ==> t.primary[t.edge[l]] == l || t.secondary[t.edge[l]] == l
  }

  /**
   * A node's primary link sits on it; a non-root node's primary link is the
   * secondary link of the edge above it, and every secondary link is the
   * primary link of its (non-root) node.
   */
  predicate UpLinks(t: Topo)
    requires WellFormed(t)
  {
    && (forall n :: 0 <= n < |t.up| ==> t.node[t.up[n]] == n)
    && (forall n :: 0 <= n < |t.up| && n != t.root ==> t.secondary[t.edge[t.up[n]]] == t.up[n])
    && (forall e :: 0 <= e < |t.secondary| ==>
          t.node[t.secondary[e]] != t.root && t.up[t.node[t.secondary[e]]] == t.secondary[e])
  }

  /** The parent of each node: the node across the edge above it; the root is its own parent. */
  function Parents(t: Topo): (par: seq<nat>)
    requires WellFormed(t)
    ensures |par| == |t.up| && IsParentMap(par)
    ensures par[t.root] == t.root
  {
    seq(|t.up|, n requires 0 <= n < |t.up| =>
      if n == t.root then t.root else t.node[t.outer[t.up[n]]])
  }

  /** Following parents from any node ends at the root: no cycles. */
  predicate Rooted(t: Topo)
    requires WellFormed(t)
  {
    ReachesRoot(Parents(t), t.root)
  }

  /** The tree invariants that genesis' `validate_topology` checks. */
  predicate ValidTopology(t: Topo)
  {
    && WellFormed(t)
    && Counts(t)
    && OuterPairs(t)
    && Rotations(t)
    && NodeCycles(t)
    && EdgeEnds(t)
    && LinksOnEdges(t)
    && UpLinks(t)
    && Rooted(t)
  }

  function LinkCount(t: Topo): nat { |t.outer| }
  function EdgeCount(t: Topo): nat { |t.primary| }
  function NodeCount(t: Topo): nat { |t.up| }

  /** genesis `is_leaf`: the node's primary link is its own successor. */
  predicate IsLeafNode(t: Topo, n: nat)
    requires WellFormed(t) && n < |t.up|
  {
    t.next[t.up[n]] == t.up[n]
  }

  /** An edge whose two end nodes are both inner: the edges NNI works on. */
  predicate IsInnerEdge(t: Topo, e: nat)
    requires WellFormed(t) && e < |t.primary|
  {
    !IsLeafNode(t, t.node[t.primary[e]]) && !IsLeafNode(t, t.node[t.secondary[e]])
  }

  /** The node on the root-ward end of edge e. */
  function PrimaryNode(t: Topo, e: nat): (n: nat)
    requires WellFormed(t) && e < |t.primary|
    ensures n < |t.up|
  {
    t.node[t.primary[e]]
  }

  /** The edge above node n (for the root: the edge of its primary link). */
  function EdgeAbove(t: Topo, n: nat): (e: nat)
    requires WellFormed(t) && n < |t.up|
    ensures e < |t.primary|
  {
    t.edge[t.up[n]]
  }

  // ----- consequences of ValidTopology used throughout -----

  lemma PrimaryIsNotSecondary(t: Topo, e: nat)
    requires ValidTopology(t) && e < |t.primary|
    ensures t.primary[e] != t.secondary[e]
    ensures t.node[t.primary[e]] != t.node[t.secondary[e]]
  {
    assert t.outer[t.primary[e]] == t.secondary[e];
  }

  /** A node has at most one secondary link: its primary link. */
  lemma SecondaryIsUp(t: Topo, l: nat)
    requires ValidTopology(t) && l < |t.outer|
    requires t.secondary[t.edge[l]] == l
    ensures t.up[t.node[l]] == l && t.node[l] != t.root
  {
    var e := t.edge[l];
    assert t.node[t.secondary[e]] != t.root && t.up[t.node[t.secondary[e]]] == t.secondary[e];
  }

  /** On an inner node, the three links of the cycle are pairwise distinct. */
  lemma InnerCycle(t: Topo, l: nat)
    requires ValidTopology(t) && l < |t.outer| && t.next[l] != l
    ensures t.next[t.next[l]] != l && t.next[t.next[l]] != t.next[l]
    ensures t.next[t.next[t.next[l]]] == l
  {
    assert t.next[t.next[t.next[l]]] == l;
  }

  /** The node of a link is inner (by genesis' test on its primary link) iff the link's cycle has length 3. */
  lemma LeafByAnyLink(t: Topo, l: nat)
    requires ValidTopology(t) && l < |t.outer|
    ensures IsLeafNode(t, t.node[l]) <==> t.next[l] == l
  {
    var u := t.up[t.node[l]];
    assert t.node[u] == t.node[l];
    if t.next[l] == l {
      assert u == l;
    } else {
      InnerCycle(t, l);
      assert t.next[l] == u || t.next[t.next[l]] == u || l == u;
    }
  }

  /** The up-link of a non-root node leads to its parent: the edge above has the parent as primary node. */
  lemma ParentAcrossUp(t: Topo, n: nat)
    requires ValidTopology(t) && n < |t.up| && n != t.root
    ensures Parents(t)[n] == t.node[t.primary[t.edge[t.up[n]]]]
    ensures t.outer[t.up[n]] == t.primary[t.edge[t.up[n]]]
  {
    var e := t.edge[t.up[n]];
    assert t.secondary[e] == t.up[n];
    assert t.outer[t.outer[t.primary[e]]] == t.primary[e];
  }

  /**
   * The arena as a mutable object: the fields are reassigned in place by the
   * topology operations.
   */
  class Tree {
    var outer: seq<nat>
    var next: seq<nat>
    var node: seq<nat>
    var edge: seq<nat>
    var primary: seq<nat>
    var secondary: seq<nat>
    var up: seq<nat>
    var root: nat

    function Snapshot(): Topo
      reads this
    {
      Topo(outer, next, node, edge, primary, secondary, up, root)
    }

    predicate Valid()
      reads this
    {
      ValidTopology(Snapshot())
    }

    constructor FromTopo(t: Topo)
      ensures Snapshot() == t
    {
      outer, next, node, edge := t.outer, t.next, t.node, t.edge;
      primary, secondary, up, root := t.primary, t.secondary, t.up, t.root;
    }

    /** Copy assignment `tnew = other`: every field takes the other tree's value. */
    method Assign(t: Topo)
      modifies this
      ensures Snapshot() == t
    {
      outer, next, node, edge := t.outer, t.next, t.node, t.edge;
      primary, secondary, up, root := t.primary, t.secondary, t.up, t.root;
    }

    /** The copy constructor `Tree tnew(tree)`. */
    constructor Copy(other: Tree)
      ensures Snapshot() == other.Snapshot()
    {
      outer, next, node, edge := other.outer, other.next, other.node, other.edge;
      primary, secondary, up, root := other.primary, other.secondary, other.up, other.root;
    }
  }
}
