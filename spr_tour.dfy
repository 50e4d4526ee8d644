/**
 * What the Euler tour of validSprMove sees. From a node's first child link,
 * the tour walks around the node's whole subtree and comes back to the node's
 * up-link after twice as many steps as there are edges below the node. So the
 * tour that starts at prune's primary link meets the edge above every node of
 * the pruned subtree before it returns through prune's secondary link, and a
 * regraft edge validSprMove accepts never hangs inside the pruned subtree.
 */
module SprTour {
  import opened ParentMaps
  import opened Topology
  import opened Spr
  import SprValidity

  /** The link reached after n tour steps. */
  function Walk(t: Topo, l: nat, n: nat): (r: nat)
    requires WellFormed(t) && l < |t.outer|
    ensures r < |t.outer|
    decreases n
  {
    if n == 0 then l else Walk(t, TourStep(t, l), n - 1)
  }

  lemma {:induction false} WalkAdd(t: Topo, l: nat, a: nat, b: nat)
    requires WellFormed(t) && l < |t.outer|
    ensures Walk(t, l, a + b) == Walk(t, Walk(t, l, a), b)
    decreases a
  {
    if a > 0 {
      WalkAdd(t, TourStep(t, l), a - 1, b);
    }
  }

  /** A non-root inner node has exactly two children, across its two other links. */
  lemma InnerChildren(t: Topo, z: nat) returns (c1: nat, c2: nat)
    requires ValidTopology(t) && z < |t.up| && z != t.root && t.next[t.up[z]] != t.up[z]
    ensures var a := t.up[z]; var d1 := t.next[a]; var d2 := t.next[d1];
      && t.next[d2] == a && d1 != a && d2 != a
      && c1 < |t.up| && c2 < |t.up| && t.up[c1] == t.outer[d1] && t.up[c2] == t.outer[d2]
      && t.outer[t.up[c1]] == d1 && t.outer[t.up[c2]] == d2
      && t.node[d1] == z && t.node[d2] == z
    ensures Parents(t)[c1] == z && Parents(t)[c2] == z && c1 != c2 && c1 != t.root && c2 != t.root
    ensures forall n :: 0 <= n < |t.up| && Parents(t)[n] == z ==> n == c1 || n == c2
  {
    var a := t.up[z];
    var d1 := t.next[a];
    var d2 := t.next[d1];
    InnerCycle(t, a);
    ParentAcrossUp(t, z);
    c1 := ChildAcross(t, z, d1);
    c2 := ChildAcross(t, z, d2);
    assert t.outer[t.outer[d1]] == d1 && t.outer[t.outer[d2]] == d2;
    var par := Parents(t);
    forall n | 0 <= n < |t.up| && par[n] == z
      ensures n == c1 || n == c2
    {
      assert n != t.root;
      var l := t.outer[t.up[n]];
      assert t.node[l] == z && t.outer[l] == t.up[n] && t.node[t.up[n]] == n;
      assert l == a || t.next[l] == a || t.next[t.next[l]] == a;
      if t.next[l] != l {
        InnerCycle(t, l);
      }
      if l == a {
        assert false;
      }
    }
  }

  /** Across a link of z other than its up-link lies a child of z. */
  lemma ChildAcross(t: Topo, z: nat, d: nat) returns (c: nat)
    requires ValidTopology(t) && z < |t.up| && d < |t.outer| && t.node[d] == z && d != t.up[z]
    ensures c < |t.up| && c != t.root && t.up[c] == t.outer[d] && Parents(t)[c] == z
  {
    if t.secondary[t.edge[d]] == d {
      SecondaryIsUp(t, d);
      assert false;
    }
    assert t.primary[t.edge[d]] == d;
    c := t.node[t.outer[d]];
    assert t.node[t.secondary[t.edge[d]]] != t.root && t.up[t.node[t.secondary[t.edge[d]]]] == t.secondary[t.edge[d]];
    assert t.outer[t.outer[d]] == d;
  }

  /** A leaf has no children. */
  lemma LeafChildren(t: Topo, z: nat)
    requires ValidTopology(t) && z < |t.up| && z != t.root && t.next[t.up[z]] == t.up[z]
    ensures forall n :: 0 <= n < |t.up| ==> Parents(t)[n] != z
  {
    var par := Parents(t);
    var a := t.up[z];
    ParentAcrossUp(t, z);
    forall n | 0 <= n < |t.up|
      ensures par[n] != z
    {
      if par[n] == z {
        assert false;
      }
    }
  }

  /** The first d links of the walk from start avoid the link a and lie on nodes of S. */
  ghost predicate Visits(t: Topo, start: nat, S: set<nat>, a: nat, d: nat)
    requires WellFormed(t) && start < |t.outer|
  {
    forall j: nat :: j < d ==> Walk(t, start, j) != a && t.node[Walk(t, start, j)] in S
  }

  /** The first d links of the walk from start include the up-link of every node of S but z. */
  ghost predicate Covers(t: Topo, start: nat, S: set<nat>, z: nat, d: nat)
    requires WellFormed(t) && start < |t.outer| && forall n :: n in S ==> n < |t.up|
  {
    forall n :: n in S && n != z ==> exists j: nat :: j < d && Walk(t, start, j) == t.up[n]
  }

  /**
   * From z's first child link, the tour visits only links on nodes of S (z's
   * subtree), never z's up-link, reaches the up-link of every other node of
   * S, and arrives at z's up-link after d = 2 * (|S| - 1) steps.
   */
  ghost predicate Tours(t: Topo, z: nat, S: set<nat>, d: nat)
    requires WellFormed(t) && z < |t.up|
  {
    var start := t.next[t.up[z]];
    && (forall n :: n in S ==> n < |t.up|)
    && d + 2 == 2 * |S|
    && Walk(t, start, d) == t.up[z]
    && Visits(t, start, S, t.up[z], d)
    && Covers(t, start, S, z, d)
  }

  /** Every non-root node's subtree is toured from its first child link. */
  lemma {:induction false} Descend(t: Topo, z: nat) returns (d: nat)
    requires ValidTopology(t) && z < |t.up| && z != t.root
    ensures Tours(t, z, Subtree(Parents(t), z), d)
    decreases |Subtree(Parents(t), z)|
  {
    if t.next[t.up[z]] == t.up[z] {
      LeafTours(t, z);
      d := 0;
    } else {
      var c1, c2 := ChildrenSplit(t, z);
      var D1 := Descend(t, c1);
      var D2 := Descend(t, c2);
      d := DescendInner(t, z, c1, c2, D1, D2, Subtree(Parents(t), z), Subtree(Parents(t), c1), Subtree(Parents(t), c2));
    }
  }

  /** A leaf's tour is empty: its first child link is its up-link. */
  lemma LeafTours(t: Topo, z: nat)
    requires ValidTopology(t) && z < |t.up| && z != t.root && t.next[t.up[z]] == t.up[z]
    ensures Tours(t, z, Subtree(Parents(t), z), 0)
  {
    LeafChildren(t, z);
    SubtreeLeaf(Parents(t), z);
    assert Walk(t, t.next[t.up[z]], 0) == t.up[z];
  }

  /** An inner non-root node's subtree splits into its two children's subtrees. */
  lemma ChildrenSplit(t: Topo, z: nat) returns (c1: nat, c2: nat)
    requires ValidTopology(t) && z < |t.up| && z != t.root && t.next[t.up[z]] != t.up[z]
    ensures c1 < |t.up| && c2 < |t.up| && c1 != t.root && c2 != t.root
    ensures WellFormed(t) && InnerLinks(t, z, c1, c2)
    ensures var S, S1, S2 := Subtree(Parents(t), z), Subtree(Parents(t), c1), Subtree(Parents(t), c2);
      && S == {z} + S1 + S2 && z !in S1 && z !in S2 && |S| == 1 + |S1| + |S2|
      && c1 in S1 && c2 in S2 && t.node[t.up[c1]] == c1 && t.node[t.up[c2]] == c2
  {
    c1, c2 := InnerChildren(t, z);
    SubtreeSplit(Parents(t), t.root, z, c1, c2);
    assert t.node[t.up[z]] == z;
  }

  /** The facts about an inner node's links that the tour around it uses. */
  predicate InnerLinks(t: Topo, z: nat, c1: nat, c2: nat)
    requires WellFormed(t) && z < |t.up| && c1 < |t.up| && c2 < |t.up|
  {
    var a := t.up[z]; var d1 := t.next[a]; var d2 := t.next[d1];
    && t.next[d2] == a && d1 != a && d2 != a && t.node[a] == z
    && t.outer[t.up[c1]] == d1 && t.outer[t.up[c2]] == d2
    && t.outer[d1] == t.up[c1] && t.outer[d2] == t.up[c2]
    && t.node[d1] == z && t.node[d2] == z
  }

  /** The inner-node step of Descend: glue the two children's tours. */
  lemma DescendInner(t: Topo, z: nat, c1: nat, c2: nat, D1: nat, D2: nat, S: set<nat>, S1: set<nat>, S2: set<nat>) returns (d: nat)
    requires WellFormed(t) && z < |t.up| && c1 < |t.up| && c2 < |t.up| && InnerLinks(t, z, c1, c2)
    requires S == {z} + S1 + S2 && z !in S1 && z !in S2 && |S| == 1 + |S1| + |S2|
    requires c1 in S1 && c2 in S2 && t.node[t.up[c1]] == c1 && t.node[t.up[c2]] == c2
    requires Tours(t, c1, S1, D1) && Tours(t, c2, S2, D2)
    ensures d == D1 + D2 + 4 && Tours(t, z, S, d)
  {
    d := D1 + D2 + 4;
    var a := t.up[z];
    var d1 := t.next[a];
    var d2 := t.next[d1];
    // The walk from d1: one step into c1's subtree, D1 steps around it, one
    // step back to d2, one step into c2's subtree, D2 steps, one step to a.
    WalkSegments(t, d1, t.next[t.up[c1]], t.up[c1], d2, t.next[t.up[c2]], t.up[c2], a, D1, D2, d);
    assert Segments(t, z, c1, c2, D1, D2, d);
    InnerVisits(t, z, c1, c2, D1, D2, d, S, S1, S2);
    InnerCovers(t, z, c1, c2, D1, D2, d, S, S1, S2);
  }

  /** Where the walk from d1 is at the start of each segment. */
  predicate Segments(t: Topo, z: nat, c1: nat, c2: nat, D1: nat, D2: nat, d: nat)
    requires WellFormed(t) && z < |t.up| && c1 < |t.up| && c2 < |t.up|
  {
    var d1 := t.next[t.up[z]];
    && Walk(t, d1, 1) == t.next[t.up[c1]]
    && Walk(t, d1, 1 + D1) == t.up[c1]
    && Walk(t, d1, 2 + D1) == t.next[d1]
    && Walk(t, d1, 3 + D1) == t.next[t.up[c2]]
    && Walk(t, d1, 3 + D1 + D2) == t.up[c2]
    && Walk(t, d1, d) == t.up[z]
  }

  lemma InnerVisits(t: Topo, z: nat, c1: nat, c2: nat, D1: nat, D2: nat, d: nat, S: set<nat>, S1: set<nat>, S2: set<nat>)
    requires WellFormed(t) && z < |t.up| && c1 < |t.up| && c2 < |t.up| && InnerLinks(t, z, c1, c2)
    requires S == {z} + S1 + S2 && z !in S1 && z !in S2
    requires t.node[t.up[c1]] in S1 && t.node[t.up[c2]] in S2
    requires Visits(t, t.next[t.up[c1]], S1, t.up[c1], D1) && Visits(t, t.next[t.up[c2]], S2, t.up[c2], D2)
    requires Segments(t, z, c1, c2, D1, D2, d) && d == D1 + D2 + 4
    ensures Visits(t, t.next[t.up[z]], S, t.up[z], d)
  {
    var a := t.up[z];
    var d1 := t.next[a];
    var s1 := t.next[t.up[c1]];
    var s2 := t.next[t.up[c2]];
    forall j: nat | j < d
      ensures Walk(t, d1, j) != a && t.node[Walk(t, d1, j)] in S
    {
      if 1 <= j <= 1 + D1 {
        WalkAdd(t, d1, 1, j - 1);
        if j - 1 == D1 {
          assert t.node[t.up[c1]] in S1;
        } else {
          assert t.node[Walk(t, s1, j - 1)] in S1;
        }
      } else if 3 + D1 <= j {
        WalkAdd(t, d1, 3 + D1, j - 3 - D1);
        if j - 3 - D1 == D2 {
          assert t.node[t.up[c2]] in S2;
        } else {
          assert t.node[Walk(t, s2, j - 3 - D1)] in S2;
        }
      }
    }
  }

  lemma InnerCovers(t: Topo, z: nat, c1: nat, c2: nat, D1: nat, D2: nat, d: nat, S: set<nat>, S1: set<nat>, S2: set<nat>)
    requires WellFormed(t) && z < |t.up| && c1 < |t.up| && c2 < |t.up|
    requires S == {z} + S1 + S2
    requires (forall n :: n in S ==> n < |t.up|)
    requires Covers(t, t.next[t.up[c1]], S1, c1, D1) && Covers(t, t.next[t.up[c2]], S2, c2, D2)
    requires Segments(t, z, c1, c2, D1, D2, d) && d == D1 + D2 + 4
    ensures Covers(t, t.next[t.up[z]], S, z, d)
  {
    var d1 := t.next[t.up[z]];
    var s1 := t.next[t.up[c1]];
    var s2 := t.next[t.up[c2]];
    forall n | n in S && n != z
      ensures exists j: nat :: j < d && Walk(t, d1, j) == t.up[n]
    {
      if n == c1 {
        assert Walk(t, d1, 1 + D1) == t.up[n];
      } else if n in S1 {
        var j: nat :| j < D1 && Walk(t, s1, j) == t.up[n];
        WalkAdd(t, d1, 1, j);
        assert Walk(t, d1, 1 + j) == t.up[n];
      } else if n == c2 {
        assert Walk(t, d1, 3 + D1 + D2) == t.up[n];
      } else {
        var j: nat :| j < D2 && Walk(t, s2, j) == t.up[n];
        WalkAdd(t, d1, 3 + D1, j);
        assert Walk(t, d1, 3 + D1 + j) == t.up[n];
      }
    }
  }

  /** The walk from d1 around an inner node, in segments. */
  lemma WalkSegments(t: Topo, d1: nat, s1: nat, u1: nat, d2: nat, s2: nat, u2: nat, a: nat, D1: nat, D2: nat, d: nat)
    requires WellFormed(t) && d1 < |t.outer| && u1 < |t.outer| && d2 < |t.outer| && u2 < |t.outer|
    requires s1 == t.next[u1] && s2 == t.next[u2]
    requires t.outer[u1] == d1 && t.outer[u2] == d2 && t.outer[d1] == u1 && t.outer[d2] == u2
    requires t.next[d1] == d2 && t.next[d2] == a
    requires Walk(t, s1, D1) == u1 && Walk(t, s2, D2) == u2 && d == D1 + D2 + 4
    ensures Walk(t, d1, 1) == s1 && Walk(t, d1, 1 + D1) == u1 && Walk(t, d1, 2 + D1) == d2
    ensures Walk(t, d1, 3 + D1) == s2 && Walk(t, d1, 3 + D1 + D2) == u2 && Walk(t, d1, d) == a
  {
    assert Walk(t, d1, 1) == s1;
    assert Walk(t, u1, 1) == d2;
    assert Walk(t, d2, 1) == s2;
    assert Walk(t, u2, 1) == a;
    WalkAdd(t, d1, 1, D1);
    WalkAdd(t, d1, 1 + D1, 1);
    WalkAdd(t, d1, 2 + D1, 1);
    WalkAdd(t, d1, 3 + D1, D2);
    WalkAdd(t, d1, 3 + D1 + D2, 1);
  }

  // ------------------------------------------------------------------
  // The tour of validSprMove, read through the walk.
  // ------------------------------------------------------------------

  /** The first j links of the walk from l, at tour step k onwards, are none of the tour's breaks. */
  ghost predicate Clear(t: Topo, prune: nat, l: nat, k: nat, j: nat)
    requires WellFormed(t) && prune < |t.primary| && l < |t.outer|
  {
    forall i: nat :: i < j ==>
      Walk(t, l, i) != t.secondary[prune] && (k + i > 0 ==> Walk(t, l, i) != t.primary[prune])
  }

  /** Every edge the walk passes before a break is one of the tour's edges. */
  lemma {:induction false} WalkInTour(t: Topo, prune: nat, l: nat, k: nat, j: nat)
    requires WellFormed(t) && prune < |t.primary| && l < |t.outer| && k + j < |t.outer|
    requires Clear(t, prune, l, k, j + 1)
    ensures t.edge[Walk(t, l, j)] in TourEdges(t, prune, l, k)
    decreases j
  {
    assert Walk(t, l, 0) == l;
    if j > 0 {
      var l' := TourStep(t, l);
      forall i: nat | i < j
        ensures Walk(t, l', i) != t.secondary[prune] && (k + 1 + i > 0 ==> Walk(t, l', i) != t.primary[prune])
      {
        assert Walk(t, l, i + 1) == Walk(t, l', i);
      }
      WalkInTour(t, prune, l', k + 1, j - 1);
    }
  }

  /** When the walk reaches prune's secondary link after j steps, the tour's edges are those of the first j links. */
  lemma {:induction false} TourEdgesWithin(t: Topo, prune: nat, l: nat, k: nat, j: nat, e: nat)
    requires WellFormed(t) && prune < |t.primary| && l < |t.outer|
    requires Clear(t, prune, l, k, j) && Walk(t, l, j) == t.secondary[prune]
    requires t.edge[t.secondary[prune]] == prune
    requires e in TourEdges(t, prune, l, k)
    ensures exists i: nat :: i < j && t.edge[Walk(t, l, i)] == e
    decreases j
  {
    assert Walk(t, l, 0) == l;
    if j > 0 && k < |t.outer| {
      var l' := TourStep(t, l);
      if e != t.edge[l] {
        forall i: nat | i < j - 1
          ensures Walk(t, l', i) != t.secondary[prune] && (k + 1 + i > 0 ==> Walk(t, l', i) != t.primary[prune])
        {
          assert Walk(t, l, i + 1) == Walk(t, l', i);
        }
        assert Walk(t, l, j) == Walk(t, l', j - 1);
        TourEdgesWithin(t, prune, l', k + 1, j - 1, e);
        var i: nat :| i < j - 1 && t.edge[Walk(t, l', i)] == e;
        assert Walk(t, l, i + 1) == Walk(t, l', i);
      }
    }
  }

  /** The node below prune, its up-link, and where the tour goes first. */
  lemma PruneFacts(t: Topo, prune: nat)
    requires ValidTopology(t) && prune < |t.primary|
    ensures var p, s := t.primary[prune], t.secondary[prune];
      var v := t.node[s];
      && v < |t.up| && v != t.root && t.up[v] == s && t.edge[s] == prune && t.edge[p] == prune
      && p != s && TourStep(t, p) == t.next[s]
      && Parents(t)[v] == t.node[p] && t.node[p] !in Subtree(Parents(t), v)
  {
    var p, s := t.primary[prune], t.secondary[prune];
    SecondaryIsUp(t, s);
    PrimaryIsNotSecondary(t, prune);
    var v := t.node[s];
    assert t.outer[s] == p;
    NotBelowChild(Parents(t), t.root, t.node[p], v);
  }

  /** The tour from prune's primary link: prune's edge, then D steps around the subtree below prune. */
  lemma PruneTour(t: Topo, prune: nat) returns (d: nat)
    requires ValidTopology(t) && prune < |t.primary|
    ensures var s := t.secondary[prune];
      var S := Subtree(Parents(t), t.node[s]);
      && t.node[s] < |t.up| && t.next[s] < |t.outer|
      && Tours(t, t.node[s], S, d) && d + 2 <= |t.outer|
      && Clear(t, prune, t.next[s], 1, d)
  {
    PruneFacts(t, prune);
    var p, s := t.primary[prune], t.secondary[prune];
    var v := t.node[s];
    var S := Subtree(Parents(t), v);
    d := Descend(t, v);
    SubtreeMissing(Parents(t), v, t.node[p]);
    forall i: nat | i < d
      ensures Walk(t, t.next[s], i) != s && (1 + i > 0 ==> Walk(t, t.next[s], i) != p)
    {
      assert t.node[Walk(t, t.next[s], i)] in S;
    }
  }

  /** The edge above every node of the subtree below prune is on the tour. */
  lemma TourCoversSubtree(t: Topo, prune: nat, n: nat)
    requires ValidTopology(t) && prune < |t.primary|
    requires n in Subtree(Parents(t), t.node[t.secondary[prune]])
    ensures n < |t.up| && t.edge[t.up[n]] in TourEdges(t, prune, t.primary[prune], 0)
  {
    PruneFacts(t, prune);
    var p, s := t.primary[prune], t.secondary[prune];
    var v := t.node[s];
    var S := Subtree(Parents(t), v);
    if n == v {
      PruneOnTour(t, prune);
      assert t.edge[t.up[n]] == prune;
    } else {
      var d := PruneTour(t, prune);
      var j: nat :| j < d && Walk(t, t.next[s], j) == t.up[n];
      CoveredAt(t, prune, j, t.up[n]);
    }
  }

  /** A link the walk from prune's secondary side reaches before any break lies on an edge of the tour. */
  lemma CoveredAt(t: Topo, prune: nat, j: nat, target: nat)
    requires WellFormed(t) && prune < |t.primary|
    requires t.primary[prune] != t.secondary[prune] && TourStep(t, t.primary[prune]) == t.next[t.secondary[prune]]
    requires Clear(t, prune, t.next[t.secondary[prune]], 1, j + 1) && j + 1 < |t.outer|
    requires Walk(t, t.next[t.secondary[prune]], j) == target
    ensures target < |t.outer| && t.edge[target] in TourEdges(t, prune, t.primary[prune], 0)
  {
    var p, s := t.primary[prune], t.secondary[prune];
    forall i: nat | i < j + 2
      ensures Walk(t, p, i) != s && (0 + i > 0 ==> Walk(t, p, i) != p)
    {
      if i > 0 {
        assert Walk(t, p, i) == Walk(t, t.next[s], i - 1);
      }
    }
    WalkInTour(t, prune, p, 0, j + 1);
    assert Walk(t, p, j + 1) == target;
  }

  /** Every edge on the tour but prune has an end inside the subtree below prune. */
  lemma TourInsideSubtree(t: Topo, prune: nat, e: nat)
    requires ValidTopology(t) && prune < |t.primary| && e != prune
    requires e in TourEdges(t, prune, t.primary[prune], 0)
    ensures e < |t.primary|
    ensures t.node[t.primary[e]] in Subtree(Parents(t), t.node[t.secondary[prune]])
         || t.node[t.secondary[e]] in Subtree(Parents(t), t.node[t.secondary[prune]])
  {
    PruneFacts(t, prune);
    var p, s := t.primary[prune], t.secondary[prune];
    var v := t.node[s];
    var d := PruneTour(t, prune);
    assert e in TourEdges(t, prune, t.next[s], 1);
    TourEdgesWithin(t, prune, t.next[s], 1, d, e);
    var i: nat :| i < d && t.edge[Walk(t, t.next[s], i)] == e;
    var l := Walk(t, t.next[s], i);
    assert t.node[l] in Subtree(Parents(t), v);
    assert t.primary[e] == l || t.secondary[e] == l;
  }

  /**
   * validSprMove accepts exactly the pairs of distinct edges in range where
   * regraft is not beside prune's primary node and regraft's upper node is
   * not in the subtree below prune.
   */
  lemma ValidSprMoveMeaning(t: Topo, prune: nat, regraft: nat)
    requires ValidTopology(t)
    ensures ValidSprMove(t, prune, regraft) <==>
      && prune < |t.primary| && regraft < |t.primary| && regraft != prune
      && regraft != PruneSideEdges(t, prune).0 && regraft != PruneSideEdges(t, prune).1
      && !Below(Parents(t), t.node[t.primary[regraft]], t.node[t.secondary[prune]])
  {
    ValidSprMoveIff(t, prune, regraft);
    if prune < |t.primary| && regraft < |t.primary| && regraft != prune {
      var par := Parents(t);
      var v := t.node[t.secondary[prune]];
      var x, y := t.node[t.secondary[regraft]], t.node[t.primary[regraft]];
      SprValidity.RegraftFacts(t, regraft);
      PruneFacts(t, prune);
      if Below(par, y, v) {
        var k: nat :| Ancestor(par, y, k) == v;
        assert Ancestor(par, x, k + 1) == v;
        TourCoversSubtree(t, prune, x);
      }
      if regraft in TourEdges(t, prune, t.primary[prune], 0) {
        TourInsideSubtree(t, prune, regraft);
        if y !in Subtree(par, v) {
          assert x in Subtree(par, v);
          var k: nat :| Ancestor(par, x, k) == v;
          if k == 0 {
            assert t.up[x] == t.up[v];
          } else {
            assert Ancestor(par, y, k - 1) == v;
          }
        }
      }
    }
  }

  /**
   * A move validSprMove accepts, away from the root, keeps the tree valid:
   * the pruned node u moves onto the regraft edge, between y and x, and u's
   * other child w takes u's place under u's old parent.
   */
  lemma AcceptedSprNonRootValid(t: Topo, prune: nat, regraft: nat)
    requires ValidTopology(t) && ValidSprMove(t, prune, regraft)
    requires prune < |t.primary| && !PrunesAtRoot(t, prune)
    ensures regraft < |t.primary| && ValidTopology(SprNonRoot(t, prune, regraft))
    ensures var par, par' := Parents(t), Parents(SprNonRoot(t, prune, regraft));
      var u, v := t.node[t.primary[prune]], t.node[t.secondary[prune]];
      var y, x := t.node[t.primary[regraft]], t.node[t.secondary[regraft]];
      && |par'| == |par|
      && par'[u] == y && par'[x] == u && par'[v] == u
      && (forall z :: 0 <= z < |par| && par[z] == u && z != v ==> par'[z] == par[u])
      && (forall z :: 0 <= z < |par| && z != u && z != x && par[z] != u ==> par'[z] == par[z])
  {
    ValidSprMoveMeaning(t, prune, regraft);
    SprValidity.SprNonRootValid(t, prune, regraft);
  }
}
