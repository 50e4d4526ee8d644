/**
 * The balanced start tree of random_tree_from_leaves in src/starttree.hpp and
 * the treecount recurrence.
 *
 * The root gets three children over the thirds [0, a), [a, 2a) and [2a, n)
 * of the leaf list, a = n / 3; every wider range is split at its midpoint
 * into two children and a range of width one becomes a leaf. The tree is
 * printed as a Newick string. Building and printing mutate a SimpleNode and
 * a string passed by reference; here they are functions returning the tree
 * and the string. The Newick reader that turns the string into a genesis
 * Tree is not part of this model.
 */
module StartTree {

  /** The SimpleNode of the builder: its children and its name, empty for inner nodes. */
  datatype SimpleNode = SimpleNode(children: seq<SimpleNode>, name: string)

  /** buildTree on the range [a, b) of leaves; an empty range would recurse forever. */
  function BuildTree(leaves: seq<string>, a: nat, b: nat): (r: SimpleNode)
    requires a < b <= |leaves|
    ensures b - a == 1 <==> r.children == []
    decreases b - a
  {
    if b - a == 1 then SimpleNode([], leaves[a])
    else SimpleNode([BuildTree(leaves, a, (b + a) / 2), BuildTree(leaves, (b + a) / 2, b)], "")
  }

  /** The root with its three children over the thirds of the leaf list. */
  function Root(leaves: seq<string>): (r: SimpleNode)
    requires |leaves| >= 3
    ensures |r.children| == 3 && r.name == ""
  {
    var a := |leaves| / 3;
    SimpleNode([BuildTree(leaves, 0, a), BuildTree(leaves, a, 2 * a), BuildTree(leaves, 2 * a, |leaves|)], "")
  }

  // ------------------------------------------------------------------
  // rec_make_newick
  // ------------------------------------------------------------------

  /** rec_make_newick on node: '(' then its children separated by ',', then its name and ')'. */
  function Newick(node: SimpleNode): (r: string)
    ensures |r| >= 2 && r[0] == '(' && r[|r| - 1] == ')'
    decreases node, |node.children| + 1
  {
    "(" + ChildrenFrom(node, 0) + node.name + ")"
  }

  /** The children of node from index i on: a leaf child is printed as its name, any other recursively. */
  function ChildrenFrom(node: SimpleNode, i: nat): string
    requires i <= |node.children|
    decreases node, |node.children| - i
  {
    if i == |node.children| then ""
    else Piece(node.children[i]) + (if i < |node.children| - 1 then "," else "") + ChildrenFrom(node, i + 1)
  }

  /** One child as printed: a leaf by its name, any other node by its own Newick string. */
  function Piece(c: SimpleNode): string
    decreases c, |c.children| + 2
  {
    if c.children == [] then c.name else Newick(c)
  }

  /** The Newick string of random_tree_from_leaves: the root printed and ';' appended. */
  function TreeNewick(leaves: seq<string>): (r: string)
    requires |leaves| >= 3
    ensures |r| >= 3 && r[0] == '(' && r[|r| - 2] == ')' && r[|r| - 1] == ';'
  {
    Newick(Root(leaves)) + ";"
  }

  // ------------------------------------------------------------------
  // The shape of the tree.
  // ------------------------------------------------------------------

  /** The leaf names of a tree, left to right. */
  function LeafNames(node: SimpleNode): seq<string>
    decreases node, 1
  {
    if node.children == [] then [node.name] else LeafNamesFrom(node, 0)
  }

  function LeafNamesFrom(node: SimpleNode, i: nat): seq<string>
    requires i <= |node.children|
    decreases node, 0, |node.children| - i
  {
    if i == |node.children| then [] else LeafNames(node.children[i]) + LeafNamesFrom(node, i + 1)
  }

  /** Every inner node of a built range has exactly two children and an empty name; every leaf has a name from the list. */
  predicate Binary(node: SimpleNode)
  {
    if node.children == [] then true
    else |node.children| == 2 && node.name == "" && Binary(node.children[0]) && Binary(node.children[1])
  }

  /** Leaves a..b-1 each appear exactly once, in input order, and the range is a binary tree. */
  lemma {:induction false} BuildTreeLeaves(leaves: seq<string>, a: nat, b: nat)
    requires a < b <= |leaves|
    ensures LeafNames(BuildTree(leaves, a, b)) == leaves[a..b]
    ensures Binary(BuildTree(leaves, a, b))
    decreases b - a
  {
    if b - a > 1 {
      var m := (b + a) / 2;
      var n := BuildTree(leaves, a, b);
      BuildTreeLeaves(leaves, a, m);
      BuildTreeLeaves(leaves, m, b);
      assert LeafNamesFrom(n, 2) == [];
      assert LeafNamesFrom(n, 1) == leaves[m..b];
      assert leaves[a..b] == leaves[a..m] + leaves[m..b];
    }
  }

  /** The root has exactly three children over [0, a), [a, 2a) and [2a, n), and the leaves appear once each, in order. */
  lemma RootLeaves(leaves: seq<string>)
    requires |leaves| >= 3
    ensures var a := |leaves| / 3;
      && |Root(leaves).children| == 3 && Root(leaves).name == ""
      && LeafNames(Root(leaves).children[0]) == leaves[..a]
      && LeafNames(Root(leaves).children[1]) == leaves[a..2 * a]
      && LeafNames(Root(leaves).children[2]) == leaves[2 * a..]
    ensures LeafNames(Root(leaves)) == leaves
  {
    var a := |leaves| / 3;
    var r := Root(leaves);
    BuildTreeLeaves(leaves, 0, a);
    BuildTreeLeaves(leaves, a, 2 * a);
    BuildTreeLeaves(leaves, 2 * a, |leaves|);
    assert LeafNamesFrom(r, 3) == [];
    assert LeafNamesFrom(r, 2) == leaves[2 * a..];
    assert LeafNamesFrom(r, 1) == leaves[a..2 * a] + leaves[2 * a..];
    assert leaves == leaves[..a] + (leaves[a..2 * a] + leaves[2 * a..]);
  }

  // ------------------------------------------------------------------
  // The Newick string.
  // ------------------------------------------------------------------

  /** A character the Newick string uses as punctuation. */
  predicate Punctuation(c: char)
  {
    c == '(' || c == ')' || c == ',' || c == ';'
  }

  /** A name without punctuation characters. */
  predicate PlainName(s: string)
  {
    forall k :: 0 <= k < |s| ==> !Punctuation(s[k])
  }

  /** s with the punctuation characters removed. */
  function Strip(s: string): (r: string)
    ensures |r| <= |s|
  {
    if s == [] then [] else Strip(s[..|s| - 1]) + (if Punctuation(s[|s| - 1]) then [] else [s[|s| - 1]])
  }

  /** How often c occurs in s. */
  function Count(s: string, c: char): nat
  {
    if s == [] then 0 else Count(s[..|s| - 1], c) + (if s[|s| - 1] == c then 1 else 0)
  }

  /** The concatenation of the names in order. */
  function Concat(names: seq<string>): string
  {
    if names == [] then [] else Concat(names[..|names| - 1]) + names[|names| - 1]
  }

  /** Every leaf name is free of punctuation and every inner node is unnamed, as the builder leaves them. */
  predicate PlainNames(node: SimpleNode)
  {
    if node.children == [] then PlainName(node.name)
    else node.name == "" && forall k :: 0 <= k < |node.children| ==> PlainNames(node.children[k])
  }

  lemma {:induction false} StripAppend(s: string, s': string)
    ensures Strip(s + s') == Strip(s) + Strip(s')
    decreases |s'|
  {
    if s' == [] {
      assert s + s' == s;
    } else {
      assert (s + s')[..|s + s'| - 1] == s + s'[..|s'| - 1];
      StripAppend(s, s'[..|s'| - 1]);
    }
  }

  lemma {:induction false} CountAppend(s: string, s': string, c: char)
    ensures Count(s + s', c) == Count(s, c) + Count(s', c)
    decreases |s'|
  {
    if s' == [] {
      assert s + s' == s;
    } else {
      assert (s + s')[..|s + s'| - 1] == s + s'[..|s'| - 1];
      CountAppend(s, s'[..|s'| - 1], c);
    }
  }

  lemma {:induction false} ConcatAppend(names: seq<string>, names': seq<string>)
    ensures Concat(names + names') == Concat(names) + Concat(names')
    decreases |names'|
  {
    if names' == [] {
      assert names + names' == names;
    } else {
      assert (names + names')[..|names + names'| - 1] == names + names'[..|names'| - 1];
      ConcatAppend(names, names'[..|names'| - 1]);
    }
  }

  lemma {:induction false} PlainNameFacts(s: string)
    requires PlainName(s)
    ensures Strip(s) == s && Count(s, '(') == 0 && Count(s, ')') == 0
  {
    if s != [] {
      PlainNameFacts(s[..|s| - 1]);
    }
  }

  /** Strip and the parenthesis counts of three strings in a row. */
  lemma Three(x: string, y: string, z: string)
    ensures Strip(x + y + z) == Strip(x) + Strip(y) + Strip(z)
    ensures Count(x + y + z, '(') == Count(x, '(') + Count(y, '(') + Count(z, '(')
    ensures Count(x + y + z, ')') == Count(x, ')') + Count(y, ')') + Count(z, ')')
  {
    StripAppend(x + y, z);
    StripAppend(x, y);
    CountAppend(x + y, z, '(');
    CountAppend(x, y, '(');
    CountAppend(x + y, z, ')');
    CountAppend(x, y, ')');
  }

  /**
   * Without punctuation in the names, the Newick string of a node without
   * its parentheses and commas is the concatenation of its leaf names in
   * order, and it holds as many '(' as ')'.
   */
  lemma {:induction false} NewickFacts(node: SimpleNode)
    requires PlainNames(node) && node.children != []
    ensures Strip(Newick(node)) == Concat(LeafNames(node))
    ensures Count(Newick(node), '(') == Count(Newick(node), ')')
    decreases node, |node.children| + 1
  {
    ChildrenFacts(node, 0);
    var body := ChildrenFrom(node, 0);
    assert Newick(node) == "(" + body + ")";
    assert LeafNames(node) == LeafNamesFrom(node, 0);
    Three("(", body, ")");
    assert Strip("(") == [] && Strip(")") == [];
    assert Count("(", '(') == 1 && Count("(", ')') == 0 && Count(")", '(') == 0 && Count(")", ')') == 1;
  }

  /** A printed child strips to its leaf names and holds as many '(' as ')'. */
  lemma {:induction false} PieceFacts(c: SimpleNode)
    requires PlainNames(c)
    ensures Strip(Piece(c)) == Concat(LeafNames(c))
    ensures Count(Piece(c), '(') == Count(Piece(c), ')')
    decreases c, |c.children| + 2
  {
    if c.children == [] {
      PlainNameFacts(c.name);
      assert LeafNames(c) == [c.name];
      assert Concat([c.name]) == Concat([]) + c.name;
    } else {
      NewickFacts(c);
    }
  }

  /** The separator after a child holds no parenthesis and strips to nothing. */
  lemma SeparatorFacts(sep: string)
    requires sep == "," || sep == ""
    ensures Strip(sep) == [] && Count(sep, '(') == 0 && Count(sep, ')') == 0
  {
  }

  lemma {:induction false} ChildrenFacts(node: SimpleNode, i: nat)
    requires PlainNames(node) && i <= |node.children|
    ensures Strip(ChildrenFrom(node, i)) == Concat(LeafNamesFrom(node, i))
    ensures Count(ChildrenFrom(node, i), '(') == Count(ChildrenFrom(node, i), ')')
    decreases node, |node.children| - i
  {
    if i < |node.children| {
      var c := node.children[i];
      var sep := if i < |node.children| - 1 then "," else "";
      var rest := ChildrenFrom(node, i + 1);
      assert ChildrenFrom(node, i) == Piece(c) + sep + rest;
      assert LeafNamesFrom(node, i) == LeafNames(c) + LeafNamesFrom(node, i + 1);
      PieceFacts(c);
      ChildrenFacts(node, i + 1);
      SeparatorFacts(sep);
      Three(Piece(c), sep, rest);
      ConcatAppend(LeafNames(c), LeafNamesFrom(node, i + 1));
    }
  }

  /** Built from plain names, the tree has plain names throughout: its inner nodes are unnamed. */
  lemma {:induction false} BuildTreePlain(leaves: seq<string>, a: nat, b: nat)
    requires a < b <= |leaves| && forall k :: 0 <= k < |leaves| ==> PlainName(leaves[k])
    ensures PlainNames(BuildTree(leaves, a, b))
    decreases b - a
  {
    if b - a > 1 {
      BuildTreePlain(leaves, a, (b + a) / 2);
      BuildTreePlain(leaves, (b + a) / 2, b);
    }
  }

  /**
   * With punctuation-free leaf names, the Newick string of the start tree
   * lists every leaf name exactly once in input order, ends in ';' and has
   * as many '(' as ')'.
   */
  lemma TreeNewickFacts(leaves: seq<string>)
    requires |leaves| >= 3 && forall k :: 0 <= k < |leaves| ==> PlainName(leaves[k])
    ensures Strip(TreeNewick(leaves)) == Concat(leaves)
    ensures Count(TreeNewick(leaves), '(') == Count(TreeNewick(leaves), ')')
    ensures TreeNewick(leaves)[|TreeNewick(leaves)| - 1] == ';'
  {
    var a := |leaves| / 3;
    BuildTreePlain(leaves, 0, a);
    BuildTreePlain(leaves, a, 2 * a);
    BuildTreePlain(leaves, 2 * a, |leaves|);
    var r := Root(leaves);
    assert PlainNames(r);
    NewickFacts(r);
    RootLeaves(leaves);
    StripAppend(Newick(r), ";");
    CountAppend(Newick(r), ";", '(');
    CountAppend(Newick(r), ";", ')');
  }

  /** Three leaves give the root with three leaf children, printed "(l0,l1,l2);". */
  lemma ThreeLeaves(l0: string, l1: string, l2: string)
    ensures TreeNewick([l0, l1, l2]) == "(" + l0 + "," + l1 + "," + l2 + ");"
  {
    var leaves := [l0, l1, l2];
    var r := Root(leaves);
    assert r.children == [SimpleNode([], l0), SimpleNode([], l1), SimpleNode([], l2)];
    assert ChildrenFrom(r, 3) == "";
    assert ChildrenFrom(r, 2) == l2;
    assert ChildrenFrom(r, 1) == l1 + "," + l2;
    assert ChildrenFrom(r, 0) == l0 + "," + l1 + "," + l2;
  }

  // ------------------------------------------------------------------
  // treecount
  // ------------------------------------------------------------------

  /** treecount(n) on unbounded integers; below 3 the source recurses without end. */
  function Treecount(n: nat): (r: nat)
    requires n >= 3
    ensures r >= 1
  {
    if n == 3 then 1 else Treecount(n - 1) * (2 * n - 5)
  }

  /** The double factorial k!! = k (k - 2) (k - 4) ... down to 1 or 2. */
  function DoubleFactorial(k: nat): nat
  {
    if k <= 1 then 1 else k * DoubleFactorial(k - 2)
  }

  /** treecount(n) is (2n - 5)!!. */
  lemma {:induction false} TreecountIsDoubleFactorial(n: nat)
    requires n >= 3
    ensures Treecount(n) == DoubleFactorial(2 * n - 5)
  {
    if n > 3 {
      TreecountIsDoubleFactorial(n - 1);
      assert 2 * (n - 1) - 5 == 2 * n - 7;
    }
  }

  /** The uint64 result of treecount: every product wraps modulo 2^64. */
  const TwoTo64: nat := 0x1_0000_0000_0000_0000

  function Treecount64(n: nat): (r: nat)
    requires 3 <= n < TwoTo64
    ensures r < TwoTo64
  {
    if n == 3 then 1 else (Treecount64(n - 1) * ((2 * n - 5) % TwoTo64)) % TwoTo64
  }

  lemma {:induction false} MulAtLeast(x: nat, k: nat)
    requires k >= 1
    ensures x <= x * k
  {
    if k > 1 {
      MulAtLeast(x, k - 1);
      assert x * k == x * (k - 1) + x;
    }
  }

  /** treecount grows with n. */
  lemma {:induction false} TreecountGrows(n: nat, n': nat)
    requires 3 <= n <= n'
    ensures Treecount(n) <= Treecount(n')
    decreases n' - n
  {
    if n < n' {
      TreecountGrows(n, n' - 1);
      MulAtLeast(Treecount(n' - 1), 2 * n' - 5);
    }
  }

  /** treecount(19) = 33!! still fits 64 bits; treecount(20) = 35!! does not. */
  lemma TreecountAt19And20()
    ensures Treecount(19) == 6332659870762850625 < TwoTo64
    ensures Treecount(20) == 221643095476699771875 >= TwoTo64
  {
    assert Treecount(4) == 3;
    assert Treecount(5) == 15;
    assert Treecount(6) == 105;
    assert Treecount(7) == 945;
    assert Treecount(8) == 10395;
    assert Treecount(9) == 135135;
    assert Treecount(10) == 2027025;
    assert Treecount(11) == 34459425;
    assert Treecount(12) == 654729075;
    assert Treecount(13) == 13749310575;
    assert Treecount(14) == 316234143225;
    assert Treecount(15) == 7905853580625;
    assert Treecount(16) == 213458046676875;
    assert Treecount(17) == 6190283353629375;
    assert Treecount(18) == 191898783962510625;
  }

  /** Up to 19 leaves the true count lies below 2^64. */
  lemma TreecountFits(n: nat)
    requires 3 <= n <= 19
    ensures Treecount(n) < TwoTo64
  {
    TreecountGrows(n, 19);
    TreecountAt19And20();
  }

  /** When the previous value was exact and the true count fits, neither wrap changes anything. */
  lemma Treecount64Step(n: nat)
    requires 3 < n && 2 * n - 5 < TwoTo64
    requires Treecount64(n - 1) == Treecount(n - 1) && Treecount(n) < TwoTo64
    ensures Treecount64(n) == Treecount(n)
  {
    var k := 2 * n - 5;
    ModBelow(k, TwoTo64);
    assert Treecount64(n - 1) * (k % TwoTo64) == Treecount(n);
    ModBelow(Treecount(n), TwoTo64);
  }

  lemma ModBelow(x: nat, m: nat)
    requires x < m
    ensures x % m == x
  {
  }

  /** Up to 19 leaves the uint64 result is exact. */
  lemma {:induction false} Treecount64Exact(n: nat)
    requires 3 <= n <= 19
    ensures Treecount64(n) == Treecount(n)
  {
    if n > 3 {
      Treecount64Exact(n - 1);
      TreecountFits(n);
      Treecount64Step(n);
    }
  }

  /** At 20 leaves the uint64 result has wrapped: it differs from the true count. */
  lemma Treecount64WrapsAt20()
    ensures Treecount64(20) != Treecount(20)
  {
    TreecountAt19And20();
  }
}
