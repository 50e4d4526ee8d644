/**
 * Parent maps: a node-indexed sequence giving each node's parent, the root
 * being its own parent. A parent map describes a rooted tree exactly when
 * every node reaches the root by following parents. These facts are used to
 * show that the topology operations never create a cycle.
 */
module ParentMaps {

  predicate IsParentMap(par: seq<nat>)
  {
    forall x :: 0 <= x < |par| ==> par[x] < |par|
  }

  /** The node reached from x after k parent steps. */
  function Ancestor(par: seq<nat>, x: nat, k: nat): (a: nat)
    requires IsParentMap(par) && x < |par|
    ensures a < |par|
    decreases k
  {
    if k == 0 then x else Ancestor(par, par[x], k - 1)
  }

  /** Every node reaches the root within |par| parent steps. */
  predicate ReachesRoot(par: seq<nat>, root: nat)
    requires IsParentMap(par)
  {
    && root < |par|
    && par[root] == root
    && forall x :: 0 <= x < |par| ==> Ancestor(par, x, |par|) == root
  }

  lemma {:induction false} AncestorAdd(par: seq<nat>, x: nat, a: nat, b: nat)
    requires IsParentMap(par) && x < |par|
    ensures Ancestor(par, x, a + b) == Ancestor(par, Ancestor(par, x, a), b)
    decreases a
  {
    if a > 0 {
      AncestorAdd(par, par[x], a - 1, b);
    }
  }

  lemma {:induction false} AncestorOfRoot(par: seq<nat>, root: nat, k: nat)
    requires IsParentMap(par) && root < |par| && par[root] == root
    ensures Ancestor(par, root, k) == root
    decreases k
  {
    if k > 0 {
      AncestorOfRoot(par, root, k - 1);
    }
  }

  /** Among more than `bound` values below `bound`, two coincide. */
  lemma {:induction false} Pigeonhole(s: seq<nat>, bound: nat) returns (a: nat, b: nat)
    requires |s| > bound
    requires forall j :: 0 <= j < |s| ==> s[j] < bound
    ensures a < b < |s| && s[a] == s[b]
    decreases bound
  {
    var last := s[|s| - 1];
    var k := 0;
    while k < |s| - 1
      invariant k <= |s| - 1
      invariant forall j :: 0 <= j < k ==> s[j] != last
    {
      if s[k] == last {
        return k, |s| - 1;
      }
      k := k + 1;
    }
    // every earlier value differs from `last`: close the gap it leaves
    var squeezed := seq(|s| - 1, j requires 0 <= j < |s| - 1 =>
      if s[j] < last then s[j] else s[j] - 1);
    assert forall j :: 0 <= j < |squeezed| ==> squeezed[j] < bound - 1;
    a, b := Pigeonhole(squeezed, bound - 1);
    assert squeezed[a] == squeezed[b];
  }

  /** A root path of any length can be shortened to at most |par| steps. */
  lemma {:induction false} ShortestRootPath(par: seq<nat>, root: nat, x: nat, k: nat)
    requires IsParentMap(par) && root < |par| && par[root] == root && x < |par|
    requires Ancestor(par, x, k) == root
    ensures Ancestor(par, x, |par|) == root
    decreases k
  {
    if k <= |par| {
      AncestorAdd(par, x, k, |par| - k);
      AncestorOfRoot(par, root, |par| - k);
    } else {
      var path := seq(k, j requires 0 <= j < k => Ancestor(par, x, j));
      var a, b := Pigeonhole(path, |par|);
      assert Ancestor(par, x, a) == Ancestor(par, x, b);
      AncestorAdd(par, x, a, k - b);
      AncestorAdd(par, x, b, k - b);
      ShortestRootPath(par, root, x, a + (k - b));
    }
  }

  /** Unfolding ReachesRoot one step: a non-root node's parent reaches the root one step sooner. */
  lemma ParentReaches(par: seq<nat>, root: nat, x: nat, k: nat)
    requires IsParentMap(par) && x < |par| && x != root
    requires Ancestor(par, x, k) == root
    ensures k > 0 && Ancestor(par, par[x], k - 1) == root
  {
  }

  /**
   * A node whose parent is one of its own children (a two-cycle away from the
   * root) never reaches the root.
   */
  lemma {:induction false} TwoCycleUnrooted(par: seq<nat>, root: nat, u: nat, v: nat, k: nat)
    requires IsParentMap(par) && u < |par| && v < |par|
    requires par[u] == v && par[v] == u && u != root && v != root
    ensures Ancestor(par, u, k) != root && Ancestor(par, v, k) != root
    decreases k
  {
    if k > 0 {
      TwoCycleUnrooted(par, root, u, v, k - 1);
    }
  }

  /**
   * Exchanging the parents of two nodes a (child of u) and b (child of v,
   * itself a child of u) keeps every node connected to the root: this is the
   * effect of a nearest-neighbour interchange on the parent map.
   */
  lemma {:induction false} InterchangeReachesRoot(par: seq<nat>, root: nat, a: nat, b: nat, u: nat, v: nat)
    requires IsParentMap(par) && ReachesRoot(par, root)
    requires a < |par| && b < |par| && u < |par| && v < |par|
    requires par[a] == u && par[b] == v && par[v] == u
    requires a != b && a != root && b != root && v != root && v != a && v != b
    ensures IsParentMap(par[a := v][b := u]) && ReachesRoot(par[a := v][b := u], root)
  {
    var par' := par[a := v][b := u];
    forall x | 0 <= x < |par'|
      ensures Ancestor(par', x, |par'|) == root
    {
      var k := InterchangeStep(par, root, a, b, u, v, x, |par|);
      ShortestRootPath(par', root, x, k);
    }
  }

  lemma {:induction false} InterchangeStep(par: seq<nat>, root: nat, a: nat, b: nat, u: nat, v: nat, x: nat, k: nat)
    returns (k': nat)
    requires IsParentMap(par) && root < |par| && par[root] == root
    requires a < |par| && b < |par| && u < |par| && v < |par| && x < |par|
    requires par[a] == u && par[b] == v && par[v] == u
    requires a != b && a != root && b != root && v != root && v != a && v != b
    requires Ancestor(par, x, k) == root
    ensures IsParentMap(par[a := v][b := u]) && Ancestor(par[a := v][b := u], x, k') == root
    decreases k
  {
    var par' := par[a := v][b := u];
    if x == root {
      k' := 0;
    } else if x == a {
      ParentReaches(par, root, a, k);
      var k1 := InterchangeStep(par, root, a, b, u, v, u, k - 1);
      k' := k1 + 2;
      assert Ancestor(par', a, k') == Ancestor(par', v, k1 + 1) == Ancestor(par', u, k1);
    } else if x == b {
      ParentReaches(par, root, b, k);
      ParentReaches(par, root, v, k - 1);
      var k1 := InterchangeStep(par, root, a, b, u, v, u, k - 2);
      k' := k1 + 1;
    } else {
      ParentReaches(par, root, x, k);
      var k1 := InterchangeStep(par, root, a, b, u, v, par[x], k - 1);
      k' := k1 + 1;
    }
  }

  /** b lies on a's path to the root (a itself included): a is in the subtree of b. */
  ghost predicate Below(par: seq<nat>, a: nat, b: nat)
    requires IsParentMap(par) && a < |par|
  {
    exists k: nat :: Ancestor(par, a, k) == b
  }

  /** A node on a cycle of length c comes back to itself after some number of steps beyond any bound. */
  lemma {:induction false} Periodic(par: seq<nat>, z: nat, c: nat, bound: nat) returns (m: nat)
    requires IsParentMap(par) && z < |par| && c > 0 && Ancestor(par, z, c) == z
    ensures m >= bound && Ancestor(par, z, m) == z
    decreases bound
  {
    if bound == 0 {
      m := 0;
    } else {
      var m0 := Periodic(par, z, c, if bound > c then bound - c else 0);
      AncestorAdd(par, z, c, m0);
      m := c + m0;
    }
  }

  /** In a parent map that reaches the root, the only node on a cycle is the root. */
  lemma CycleIsRoot(par: seq<nat>, root: nat, z: nat, c: nat)
    requires IsParentMap(par) && ReachesRoot(par, root) && z < |par|
    requires c > 0 && Ancestor(par, z, c) == z
    ensures z == root
  {
    var n := |par|;
    var m := Periodic(par, z, c, n);
    AncestorAdd(par, z, n, m - n);
    AncestorOfRoot(par, root, m - n);
  }

  /**
   * Giving w its grandparent g as parent (cutting out w's parent u) keeps
   * every node connected to the root.
   */
  lemma ShortcutReachesRoot(par: seq<nat>, root: nat, w: nat, u: nat, g: nat)
    requires IsParentMap(par) && ReachesRoot(par, root)
    requires w < |par| && u < |par| && g < |par| && par[w] == u && par[u] == g && w != root
    ensures IsParentMap(par[w := g]) && ReachesRoot(par[w := g], root)
  {
    var par1 := par[w := g];
    forall z | 0 <= z < |par1|
      ensures Ancestor(par1, z, |par1|) == root
    {
      var k := ShortcutStep(par, root, w, u, g, z, |par|);
      ShortestRootPath(par1, root, z, k);
    }
  }

  lemma {:induction false} ShortcutStep(par: seq<nat>, root: nat, w: nat, u: nat, g: nat, z: nat, k: nat)
    returns (k': nat)
    requires IsParentMap(par) && root < |par| && par[root] == root
    requires w < |par| && u < |par| && g < |par| && par[w] == u && par[u] == g && w != root
    requires z < |par| && Ancestor(par, z, k) == root
    ensures IsParentMap(par[w := g]) && Ancestor(par[w := g], z, k') == root
    decreases k
  {
    var par1 := par[w := g];
    if z == root {
      k' := 0;
    } else if z == w {
      ParentReaches(par, root, w, k);
      if u == root {
        k' := 1;
      } else {
        ParentReaches(par, root, u, k - 1);
        var k1 := ShortcutStep(par, root, w, u, g, g, k - 2);
        k' := k1 + 1;
      }
    } else {
      ParentReaches(par, root, z, k);
      var k1 := ShortcutStep(par, root, w, u, g, par[z], k - 1);
      k' := k1 + 1;
    }
  }

  /** A path that avoids the two re-parented nodes is the same before and after. */
  lemma {:induction false} KeptPath(par: seq<nat>, par': seq<nat>, a: nat, b: nat, z: nat, k: nat)
    requires IsParentMap(par) && IsParentMap(par') && |par'| == |par| && z < |par|
    requires forall n :: 0 <= n < |par| && n != a && n != b ==> par'[n] == par[n]
    requires forall j :: 0 <= j < k ==> Ancestor(par, z, j) != a && Ancestor(par, z, j) != b
    ensures Ancestor(par', z, k) == Ancestor(par, z, k)
    decreases k
  {
    if k > 0 {
      assert Ancestor(par, z, 0) == z;
      forall j | 0 <= j < k - 1
        ensures Ancestor(par, par[z], j) != a && Ancestor(par, par[z], j) != b
      {
        assert Ancestor(par, z, j + 1) == Ancestor(par, par[z], j);
      }
      KeptPath(par, par', a, b, par[z], k - 1);
    }
  }

  /**
   * Inserting u (with whatever hangs below it) between x and its parent y
   * keeps every node connected to the root, provided y is not below u.
   */
  lemma InsertReachesRoot(par: seq<nat>, root: nat, u: nat, x: nat, y: nat)
    requires IsParentMap(par) && ReachesRoot(par, root)
    requires u < |par| && x < |par| && y < |par| && par[x] == y
    requires u != root && x != root && x != u
    requires forall j: nat :: Ancestor(par, y, j) != u
    ensures IsParentMap(par[u := y][x := u]) && ReachesRoot(par[u := y][x := u], root)
  {
    var par2 := par[u := y][x := u];
    var n := |par|;
    forall j | 0 <= j < n
      ensures Ancestor(par, y, j) != u && Ancestor(par, y, j) != x
    {
      if Ancestor(par, y, j) == x {
        AncestorAdd(par, x, 1, j);
        CycleIsRoot(par, root, x, 1 + j);
      }
    }
    KeptPath(par, par2, u, x, y, n);
    forall z | 0 <= z < n
      ensures Ancestor(par2, z, n) == root
    {
      var k := InsertStep(par, root, u, x, y, z, n);
      ShortestRootPath(par2, root, z, k);
    }
  }

  lemma {:induction false} InsertStep(par: seq<nat>, root: nat, u: nat, x: nat, y: nat, z: nat, k: nat)
    returns (k': nat)
    requires IsParentMap(par) && root < |par| && par[root] == root
    requires u < |par| && x < |par| && y < |par| && par[x] == y
    requires u != root && x != root && x != u
    requires Ancestor(par[u := y][x := u], y, |par|) == root
    requires z < |par| && Ancestor(par, z, k) == root
    ensures IsParentMap(par[u := y][x := u]) && Ancestor(par[u := y][x := u], z, k') == root
    decreases k
  {
    var par2 := par[u := y][x := u];
    if z == root {
      k' := 0;
    } else if z == u {
      k' := |par| + 1;
    } else if z == x {
      k' := |par| + 2;
      assert Ancestor(par2, x, k') == Ancestor(par2, u, |par| + 1);
    } else {
      ParentReaches(par, root, z, k);
      var k1 := InsertStep(par, root, u, x, y, par[z], k - 1);
      k' := k1 + 1;
    }
  }

  /**
   * The effect of a subtree prune and regraft on the parent map: u, with
   * children v and w and parent g, is pruned together with v's subtree (w
   * moves up to g) and inserted between x and its parent y. The result is
   * still a rooted tree when y is not in v's subtree.
   */
  lemma SprReachesRoot(par: seq<nat>, root: nat, u: nat, v: nat, w: nat, g: nat, x: nat, y: nat)
    requires IsParentMap(par) && ReachesRoot(par, root)
    requires u < |par| && v < |par| && w < |par| && g < |par| && x < |par| && y < |par|
    requires par[v] == u && par[w] == u && par[u] == g && par[x] == y
    requires forall z :: 0 <= z < |par| && par[z] == u ==> z == v || z == w
    requires u != root && v != w && x != u && x != w && x != root && y != u
    requires !Below(par, y, v)
    ensures IsParentMap(par[w := g][u := y][x := u]) && ReachesRoot(par[w := g][u := y][x := u], root)
  {
    ShortcutReachesRoot(par, root, w, u, g);
    AvoidParent(par, par[w := g], root, u, v, w, g, y, |par|);
    InsertReachesRoot(par[w := g], root, u, x, y);
  }

  /**
   * After w is moved up to g, a node whose path avoids v no longer passes
   * through u: u's only remaining child is v.
   */
  lemma {:induction false} AvoidParent(par: seq<nat>, par1: seq<nat>, root: nat, u: nat, v: nat, w: nat, g: nat, z: nat, k: nat)
    requires IsParentMap(par) && ReachesRoot(par, root)
    requires u < |par| && v < |par| && w < |par| && g < |par|
    requires par[v] == u && par[w] == u && par[u] == g
    requires forall n :: 0 <= n < |par| && par[n] == u ==> n == v || n == w
    requires u != root && v != w
    requires z < |par| && z != u && Ancestor(par, z, k) == root
    requires forall j: nat :: Ancestor(par, z, j) != v
    requires par1 == par[w := g]
    ensures IsParentMap(par1) && forall j: nat :: Ancestor(par1, z, j) != u
    decreases k
  {
    assert w != root;
    if z == root {
      forall j: nat ensures Ancestor(par1, z, j) != u {
        AncestorOfRoot(par1, root, j);
      }
    } else if z == w {
      if g == u {
        CycleIsRoot(par, root, u, 1);
      }
      forall j: nat ensures Ancestor(par, g, j) != v {
        if Ancestor(par, g, j) == v {
          AncestorAdd(par, v, 2, j);
          CycleIsRoot(par, root, v, 2 + j);
        }
      }
      ParentReaches(par, root, w, k);
      ParentReaches(par, root, u, k - 1);
      AvoidParent(par, par1, root, u, v, w, g, g, k - 2);
      forall j: nat ensures Ancestor(par1, z, j) != u {
        if j > 0 {
          assert Ancestor(par1, z, j) == Ancestor(par1, g, j - 1);
        }
      }
    } else {
      var z' := par[z];
      assert Ancestor(par, z, 0) == z;
      forall j: nat ensures Ancestor(par, z', j) != v {
        assert Ancestor(par, z, j + 1) == Ancestor(par, z', j);
      }
      ParentReaches(par, root, z, k);
      AvoidParent(par, par1, root, u, v, w, g, z', k - 1);
      forall j: nat ensures Ancestor(par1, z, j) != u {
        if j > 0 {
          assert Ancestor(par1, z, j) == Ancestor(par1, z', j - 1);
        }
      }
    }
  }

  // ------------------------------------------------------------------
  // Subtrees.
  // ------------------------------------------------------------------

  /** The nodes below z, z included. */
  ghost function Subtree(par: seq<nat>, z: nat): (sub: set<nat>)
    requires IsParentMap(par) && z < |par|
    ensures z in sub
    ensures forall n :: n in sub ==> n < |par|
  {
    assert Ancestor(par, z, 0) == z;
    set n | 0 <= n < |par| && Below(par, n, z)
  }

  /** A node below a child of z is below z. */
  lemma BelowStep(par: seq<nat>, n: nat, c: nat, z: nat)
    requires IsParentMap(par) && n < |par| && c < |par| && par[c] == z
    requires Below(par, n, c)
    ensures Below(par, n, z)
  {
    var k: nat :| Ancestor(par, n, k) == c;
    AncestorAdd(par, n, k, 1);
    assert Ancestor(par, n, k + 1) == z;
  }

  /** A node strictly below z is below one of z's children. */
  lemma BelowChild(par: seq<nat>, n: nat, z: nat) returns (c: nat)
    requires IsParentMap(par) && n < |par| && Below(par, n, z) && n != z
    ensures c < |par| && par[c] == z && Below(par, n, c)
  {
    var k: nat :| Ancestor(par, n, k) == z;
    c := Ancestor(par, n, k - 1);
    AncestorAdd(par, n, k - 1, 1);
    assert Ancestor(par, n, k - 1) == c;
  }

  /** In a rooted tree, a node is never below one of its children. */
  lemma NotBelowChild(par: seq<nat>, root: nat, z: nat, c: nat)
    requires IsParentMap(par) && ReachesRoot(par, root) && z < |par| && c < |par|
    requires par[c] == z && c != root
    ensures !Below(par, z, c)
  {
    if Below(par, z, c) {
      var k: nat :| Ancestor(par, z, k) == c;
      AncestorAdd(par, c, 1, k);
      CycleIsRoot(par, root, c, 1 + k);
    }
  }

  /** The subtrees of two different children of a node share no node. */
  lemma DisjointChildren(par: seq<nat>, root: nat, z: nat, c1: nat, c2: nat, n: nat)
    requires IsParentMap(par) && ReachesRoot(par, root) && z < |par| && c1 < |par| && c2 < |par| && n < |par|
    requires par[c1] == z && par[c2] == z && c1 != c2 && c1 != root && c2 != root
    ensures !(Below(par, n, c1) && Below(par, n, c2))
  {
    if Below(par, n, c1) && Below(par, n, c2) {
      var k1: nat :| Ancestor(par, n, k1) == c1;
      var k2: nat :| Ancestor(par, n, k2) == c2;
      if k1 <= k2 {
        SameParentCycle(par, root, z, c1, c2, n, k1, k2);
      } else {
        SameParentCycle(par, root, z, c2, c1, n, k2, k1);
      }
      assert false;
    }
  }

  lemma SameParentCycle(par: seq<nat>, root: nat, z: nat, c1: nat, c2: nat, n: nat, k1: nat, k2: nat)
    requires IsParentMap(par) && ReachesRoot(par, root) && z < |par| && c1 < |par| && c2 < |par| && n < |par|
    requires par[c1] == z && par[c2] == z && c1 != c2
    requires k1 <= k2 && Ancestor(par, n, k1) == c1 && Ancestor(par, n, k2) == c2
    ensures c2 == root
  {
    AncestorAdd(par, n, k1, k2 - k1);
    assert Ancestor(par, c1, k2 - k1) == c2;
    assert Ancestor(par, z, k2 - k1 - 1) == c2;
    AncestorAdd(par, c2, 1, k2 - k1 - 1);
    CycleIsRoot(par, root, c2, k2 - k1);
  }

  /** The subtree of a node with exactly two children is the node and its children's disjoint subtrees. */
  lemma SubtreeSplit(par: seq<nat>, root: nat, z: nat, c1: nat, c2: nat)
    requires IsParentMap(par) && ReachesRoot(par, root) && z < |par| && c1 < |par| && c2 < |par|
    requires par[c1] == z && par[c2] == z && c1 != c2 && c1 != root && c2 != root
    requires forall n :: 0 <= n < |par| && par[n] == z ==> n == c1 || n == c2
    ensures Subtree(par, z) == {z} + Subtree(par, c1) + Subtree(par, c2)
    ensures z !in Subtree(par, c1) && z !in Subtree(par, c2)
    ensures Subtree(par, c1) !! Subtree(par, c2)
    ensures |Subtree(par, z)| == 1 + |Subtree(par, c1)| + |Subtree(par, c2)|
  {
    var s, s1, s2 := Subtree(par, z), Subtree(par, c1), Subtree(par, c2);
    forall n | n in s
      ensures n == z || n in s1 || n in s2
    {
      if n != z {
        var c := BelowChild(par, n, z);
      }
    }
    forall n | n in s1 + s2
      ensures n in s
    {
      if n in s1 {
        BelowStep(par, n, c1, z);
      } else {
        BelowStep(par, n, c2, z);
      }
    }
    NotBelowChild(par, root, z, c1);
    NotBelowChild(par, root, z, c2);
    forall n | n in s1
      ensures n !in s2
    {
      DisjointChildren(par, root, z, c1, c2, n);
    }
    assert s == {z} + s1 + s2;
    assert |s1 + s2| == |s1| + |s2|;
  }

  /** A node without children is its own subtree. */
  lemma SubtreeLeaf(par: seq<nat>, z: nat)
    requires IsParentMap(par) && z < |par|
    requires forall n :: 0 <= n < |par| ==> par[n] != z
    ensures Subtree(par, z) == {z}
  {
    forall n | n in Subtree(par, z)
      ensures n == z
    {
      if n != z {
        var c := BelowChild(par, n, z);
      }
    }
  }

  lemma {:induction false} SetSizeBelow(s: set<nat>, n: nat)
    requires forall k :: k in s ==> k < n
    ensures |s| <= n
    decreases n
  {
    if n > 0 {
      SetSizeBelow(s - {n - 1}, n - 1);
    } else {
      assert s == {};
    }
  }

  /** A set of numbers below n that misses one of them has fewer than n elements. */
  lemma {:induction false} BoundedSetSize(s: set<nat>, n: nat, a: nat)
    requires forall k :: k in s ==> k < n
    requires a < n && a !in s
    ensures |s| < n
    decreases n
  {
    if a == n - 1 {
      SetSizeBelow(s, n - 1);
    } else {
      BoundedSetSize(s - {n - 1}, n - 1, a);
    }
  }

  /** A subtree that misses some node has fewer nodes than the tree. */
  lemma SubtreeMissing(par: seq<nat>, z: nat, a: nat)
    requires IsParentMap(par) && z < |par| && a < |par| && a !in Subtree(par, z)
    ensures |Subtree(par, z)| < |par|
  {
    BoundedSetSize(Subtree(par, z), |par|, a);
  }

  /** What lies above w: w itself and whatever lies above its parent. */
  lemma BelowUp(par: seq<nat>, w: nat, x: nat)
    requires IsParentMap(par) && w < |par|
    ensures Below(par, w, x) <==> x == w || Below(par, par[w], x)
  {
    assert Ancestor(par, w, 0) == w;
    if Below(par, w, x) && x != w {
      var k: nat :| Ancestor(par, w, k) == x;
      assert Ancestor(par, par[w], k - 1) == x;
    }
    if Below(par, par[w], x) {
      var k: nat :| Ancestor(par, par[w], k) == x;
      assert Ancestor(par, w, k + 1) == x;
    }
  }

  /** Nothing but the root lies above the root. */
  lemma BelowRoot(par: seq<nat>, root: nat, x: nat)
    requires IsParentMap(par) && root < |par| && par[root] == root
    ensures Below(par, root, x) <==> x == root
  {
    assert Ancestor(par, root, 0) == root;
    if Below(par, root, x) {
      var k: nat :| Ancestor(par, root, k) == x;
      AncestorOfRoot(par, root, k);
    }
  }

  /** No cycles: when x lies above v's parent, x's parent does not lie below v. */
  lemma AboveNotBelow(par: seq<nat>, root: nat, v: nat, x: nat)
    requires IsParentMap(par) && ReachesRoot(par, root) && v < |par| && x < |par| && v != root
    requires Below(par, par[v], x)
    ensures !Below(par, par[x], v)
  {
    if Below(par, par[x], v) {
      var a: nat :| Ancestor(par, par[x], a) == v;
      var b: nat :| Ancestor(par, par[v], b) == x;
      assert Ancestor(par, v, 1 + b) == x;
      assert Ancestor(par, x, 1 + a) == v;
      AncestorAdd(par, v, 1 + b, 1 + a);
      CycleIsRoot(par, root, v, 2 + b + a);
    }
  }
}
