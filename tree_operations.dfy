/**
 * The older copying NNI helpers (src/tree_operations.hpp): nni_a and nni_b
 * copy the tree and perform the nine pointer updates on the copy; nni lists
 * both neighbours of every inner edge without validating them.
 */
module TreeOperations {
  import opened Topology
  import Nni

  /** nni_a: a fresh copy carrying the nni_a interchange; the argument is untouched. */
  method NniA(tree: Tree, i: nat) returns (tnew: Tree)
    requires WellFormed(tree.Snapshot()) && i < |tree.primary|
    ensures fresh(tnew) && tnew.Snapshot() == Nni.NniA(tree.Snapshot(), i)
  {
    tnew := new Tree.Copy(tree);
    var x := Nni.PrimarySideLinkOf(tnew, i);
    Nni.ExchangeSubtrees(tnew, i, x, false);
  }

  /** nni_b: as nni_a, with the subtree at s.next.next. */
  method NniB(tree: Tree, i: nat) returns (tnew: Tree)
    requires WellFormed(tree.Snapshot()) && i < |tree.primary|
    ensures fresh(tnew) && tnew.Snapshot() == Nni.NniB(tree.Snapshot(), i)
  {
    tnew := new Tree.Copy(tree);
    var x := Nni.PrimarySideLinkOf(tnew, i);
    Nni.ExchangeSubtrees(tnew, i, x, true);
  }

  /** One turn of nni's loop: an inner edge i adds its nni_a and nni_b trees. */
  method NeighboursOfEdge(tree: Tree, i: nat, trees: seq<Topo>) returns (trees': seq<Topo>)
    requires WellFormed(tree.Snapshot()) && i < |tree.primary|
    requires trees == Nni.NniResults(tree.Snapshot(), Nni.InnerEdges(tree.Snapshot(), i))
    ensures trees' == Nni.NniResults(tree.Snapshot(), Nni.InnerEdges(tree.Snapshot(), i + 1))
  {
    ghost var t := tree.Snapshot();
    ghost var es := Nni.InnerEdges(t, i);
    if !IsInnerEdge(tree.Snapshot(), i) {
      assert Nni.InnerEdges(t, i + 1) == es;
      return trees;
    }
    var tnew := NniA(tree, i);
    var a := tnew.Snapshot();
    var tnew2 := NniB(tree, i);
    var b := tnew2.Snapshot();
    Nni.NniResultsAppend(t, es, i, trees, a, b);
    trees' := trees + [a, b];
    assert Nni.InnerEdges(t, i + 1) == es + [i];
  }

  /**
   * nni: for each edge with inner nodes at both ends, in ascending order,
   * its nni_a tree and then its nni_b tree. Nothing is validated, but on a
   * valid tree every listed tree is valid.
   */
  method Neighbours(tree: Tree) returns (trees: seq<Topo>)
    requires WellFormed(tree.Snapshot())
    ensures trees == Nni.NniResults(tree.Snapshot(), Nni.InnerEdges(tree.Snapshot(), |tree.primary|))
    ensures tree.Valid() ==> forall k :: 0 <= k < |trees| ==> ValidTopology(trees[k])
  {
    ghost var t := tree.Snapshot();
    trees := [];
    var i := 0;
    while i < |tree.primary|
      invariant 0 <= i <= |tree.primary| && tree.Snapshot() == t
      invariant trees == Nni.NniResults(t, Nni.InnerEdges(t, i))
    {
      trees := NeighboursOfEdge(tree, i, trees);
      i := i + 1;
    }
    if tree.Valid() {
      Nni.NniResultsValid(t, Nni.InnerEdges(t, |tree.primary|));
    }
  }
}
