/**
 * Nearest-neighbour interchange on the link arena (src/nni.hpp).
 *
 * Across an inner edge i with primary link p (on node u) and secondary link
 * s (on node v), an interchange exchanges the subtree hanging from a child
 * link X of u with the subtree hanging from a child link Y of v. X is picked
 * by a test on p.next; nni_a takes Y = s.next and nni_b takes Y = s.next.next.
 * The edges stay with X and Y: only `outer`, two edges' `secondary` link and
 * two links' `edge` field change.
 */
module Nni {
  import opened Topology
  import opened ParentMaps
  import opened Errors

  /** X: p.next, unless p.next is the secondary link of its own edge (u's up-link); then p.next.next. */
  function PrimarySideLink(t: Topo, i: nat): nat
    requires WellFormed(t) && i < |t.primary|
  {
    var p := t.primary[i];
    if t.secondary[t.edge[t.next[p]]] == t.next[p] then t.next[t.next[p]] else t.next[p]
  }

  /** Y of nni_a: s.next. */
  function PartnerA(t: Topo, i: nat): nat
    requires WellFormed(t) && i < |t.primary|
  {
    t.next[t.secondary[i]]
  }

  /** Y of nni_b: s.next.next. */
  function PartnerB(t: Topo, i: nat): nat
    requires WellFormed(t) && i < |t.primary|
  {
    t.next[t.next[t.secondary[i]]]
  }

  /**
   * Links x and y trade the subtrees across them: x is paired with y's old
   * outer link and y with x's; each of the two edges keeps its primary link
   * (x resp. y) and takes the newly paired link as secondary.
   */
  function Interchange(t: Topo, x: nat, y: nat): (r: Topo)
    requires WellFormed(t) && x < |t.outer| && y < |t.outer|
    ensures WellFormed(r)
  {
    var ox, oy := t.outer[x], t.outer[y];
    var ex, ey := t.edge[x], t.edge[y];
    t.(outer := t.outer[x := oy][oy := x][y := ox][ox := y],
       secondary := t.secondary[ex := oy][ey := ox],
       edge := t.edge[oy := ex][ox := ey])
  }

  /**
   * Statements 1-5 of the exchange: outer(X) and outer(Y) point back to Y
   * and X, then X and Y take each other's old outer link.
   */
  function ResetOuters(t: Topo, x: nat, y: nat): (r: Topo)
    requires WellFormed(t) && x < |t.outer| && y < |t.outer|
    ensures r.primary == t.primary && r.secondary == t.secondary && r.next == t.next && r.edge == t.edge
  {
    var o1 := t.outer[t.outer[x] := y];
    var o2 := o1[o1[y] := x];
    var l1 := o2[x];
    t.(outer := o2[x := o2[y]][y := l1])
  }

  /** Statements 6 and 7: the edge of link l takes l's outer link as its secondary end. */
  function ResetSecondary(t: Topo, l: nat): (r: Topo)
    requires WellFormed(t) && l < |t.outer|
    ensures r.primary == t.primary && r.outer == t.outer && r.next == t.next && r.edge == t.edge
  {
    t.(secondary := t.secondary[t.edge[l] := t.outer[l]])
  }

  /** Statements 8 and 9: l's outer link takes the edge of l. */
  function ResetEdge(t: Topo, l: nat): (r: Topo)
    requires WellFormed(t) && l < |t.outer|
    ensures r.primary == t.primary && r.outer == t.outer && r.next == t.next && r.secondary == t.secondary
  {
    t.(edge := t.edge[t.outer[l] := t.edge[l]])
  }

  /** Statements 1-5 keep the arena well formed. */
  lemma ResetOutersWellFormed(t: Topo, x: nat, y: nat)
    requires WellFormed(t) && x < |t.outer| && y < |t.outer|
    ensures WellFormed(ResetOuters(t, x, y))
  {
  }

  /** Statements 6 and 7 keep the arena well formed. */
  lemma ResetSecondaryWellFormed(t: Topo, l: nat)
    requires WellFormed(t) && l < |t.outer|
    ensures WellFormed(ResetSecondary(t, l))
  {
  }

  /** Statements 8 and 9 keep the arena well formed. */
  lemma ResetEdgeWellFormed(t: Topo, l: nat)
    requires WellFormed(t) && l < |t.outer|
    ensures WellFormed(ResetEdge(t, l))
  {
  }

  /**
   * The nine pointer updates of nni_a_inplace / nni_b_inplace for fixed
   * links X and Y, in the order the source performs them; every read sees
   * the writes before it.
   */
  function ExchangeAsWritten(t: Topo, x: nat, y: nat): (r: Topo)
    requires WellFormed(t) && x < |t.outer| && y < |t.outer|
    ensures WellFormed(r)
  {
    var t5 := ResetOuters(t, x, y);
    ResetOutersWellFormed(t, x, y);
    var t6 := ResetSecondary(t5, x);
    ResetSecondaryWellFormed(t5, x);
    var t7 := ResetSecondary(t6, y);
    ResetSecondaryWellFormed(t6, y);
    var t8 := ResetEdge(t7, x);
    ResetEdgeWellFormed(t7, x);
    ResetEdgeWellFormed(t8, y);
    ResetEdge(t8, y)
  }

  /** The link Y is read from, given edge i's secondary link s: s.next for nni_a, s.next.next for nni_b. */
  function Across(t: Topo, s: nat, twice: bool): nat
    requires WellFormed(t) && s < |t.outer|
  {
    if twice then t.next[t.next[s]] else t.next[s]
  }

  /** Y of nni_a (twice false) or nni_b (twice true), read through edge i's current secondary link. */
  function Partner(t: Topo, i: nat, twice: bool): nat
    requires WellFormed(t) && i < |t.primary|
  {
    Across(t, t.secondary[i], twice)
  }

  /**
   * The nine statements of nni_a_inplace (twice false) or nni_b_inplace
   * (twice true) as written. X is read once: neither primary[i] nor `next`
   * is ever written. Y is read again through edge i's secondary link, which
   * statement 6 or 7 may have moved, before statements 7 and 9.
   */
  function NniAsWritten(t: Topo, i: nat, twice: bool): (r: Topo)
    requires WellFormed(t) && i < |t.primary|
    ensures WellFormed(r)
  {
    var x := PrimarySideLink(t, i);
    var t5 := ResetOuters(t, x, Partner(t, i, twice));
    ResetOutersWellFormed(t, x, Partner(t, i, twice));
    var t6 := ResetSecondary(t5, x);
    ResetSecondaryWellFormed(t5, x);
    var t7 := ResetSecondary(t6, Partner(t6, i, twice));
    ResetSecondaryWellFormed(t6, Partner(t6, i, twice));
    var t8 := ResetEdge(t7, x);
    ResetEdgeWellFormed(t7, x);
    ResetEdgeWellFormed(t8, Partner(t8, i, twice));
    ResetEdge(t8, Partner(t8, i, twice))
  }

  /** The tree nni_a_inplace leaves behind (and nni_a returns). */
  function NniA(t: Topo, i: nat): (r: Topo)
    requires WellFormed(t) && i < |t.primary|
    ensures WellFormed(r)
  {
    NniAsWritten(t, i, false)
  }

  /** The tree nni_b_inplace leaves behind (and nni_b returns). */
  function NniB(t: Topo, i: nat): (r: Topo)
    requires WellFormed(t) && i < |t.primary|
    ensures WellFormed(r)
  {
    NniAsWritten(t, i, true)
  }

  /** The edges NNI is applied to: inner edges of a valid tree. */
  predicate InnerEdgeOf(t: Topo, i: nat)
  {
    ValidTopology(t) && i < |t.primary| && IsInnerEdge(t, i)
  }

  /** Y is one of the two child links of the secondary node. */
  predicate IsPartner(t: Topo, i: nat, y: nat)
    requires WellFormed(t) && i < |t.primary|
  {
    y == PartnerA(t, i) || y == PartnerB(t, i)
  }

  // ------------------------------------------------------------------
  // The facts about an inner edge that the interchange relies on.
  // ------------------------------------------------------------------

  /** A link that is not the secondary link of its edge hangs a child: the node across it, whose parent is the link's node. */
  lemma ChildLink(t: Topo, l: nat)
    requires ValidTopology(t) && l < |t.outer| && t.secondary[t.edge[l]] != l
    ensures t.primary[t.edge[l]] == l && t.secondary[t.edge[l]] == t.outer[l] && t.edge[t.outer[l]] == t.edge[l]
    ensures t.outer[l] != l && t.node[t.outer[l]] != t.node[l]
    ensures t.up[t.node[t.outer[l]]] == t.outer[l] && t.node[t.outer[l]] != t.root
    ensures Parents(t)[t.node[t.outer[l]]] == t.node[l]
  {
    var e := t.edge[l];
    assert t.primary[e] == l;
    SecondaryIsUp(t, t.outer[l]);
    ParentAcrossUp(t, t.node[t.outer[l]]);
  }

  /** X sits on u and Y on v, and neither is the secondary link of its edge. */
  lemma SideLinks(t: Topo, i: nat, y: nat)
    requires InnerEdgeOf(t, i) && IsPartner(t, i, y)
    ensures
      var p, s, x := t.primary[i], t.secondary[i], PrimarySideLink(t, i);
      && x < |t.outer| && y < |t.outer|
      && x != p && t.node[x] == t.node[p] && t.secondary[t.edge[x]] != x
      && y != s && t.node[y] == t.node[s] && t.secondary[t.edge[y]] != y
      && (t.next[p] == x || (t.secondary[t.edge[t.next[p]]] == t.next[p] && t.next[t.next[p]] == x))
  {
    var p, s := t.primary[i], t.secondary[i];
    var x := PrimarySideLink(t, i);
    LeafByAnyLink(t, p);
    LeafByAnyLink(t, s);
    InnerCycle(t, p);
    InnerCycle(t, s);
    if t.secondary[t.edge[t.next[p]]] == t.next[p] {
      SecondaryIsUp(t, t.next[p]);
      if t.secondary[t.edge[x]] == x {
        SecondaryIsUp(t, x);
        assert false;
      }
    }
    assert t.secondary[t.edge[s]] == s;
    SecondaryIsUp(t, s);
    if t.secondary[t.edge[y]] == y {
      SecondaryIsUp(t, y);
      assert false;
    }
  }

  /**
   * Around an inner edge i: X is a child link of the primary node u (never
   * its up-link), Y a child link of the secondary node v; the four links
   * X, Y, outer(X), outer(Y) are distinct and sit on four distinct nodes
   * u, v, A, B, where A and B are the children across X and Y.
   */
  lemma NniFacts(t: Topo, i: nat, y: nat)
    returns (x: nat, ox: nat, oy: nat, ex: nat, ey: nat, u: nat, v: nat, a: nat, b: nat)
    requires InnerEdgeOf(t, i) && IsPartner(t, i, y)
    ensures x == PrimarySideLink(t, i) && x < |t.outer| && y < |t.outer|
    ensures ox == t.outer[x] && oy == t.outer[y] && ex == t.edge[x] && ey == t.edge[y]
    ensures u == t.node[t.primary[i]] && v == t.node[t.secondary[i]]
    ensures a == t.node[ox] && b == t.node[oy]
    ensures x != t.primary[i] && y != t.secondary[i] && t.node[x] == u && t.node[y] == v && u != v
    ensures t.primary[ex] == x && t.secondary[ex] == ox && t.edge[ox] == ex
    ensures t.primary[ey] == y && t.secondary[ey] == oy && t.edge[oy] == ey
    ensures ex != ey && ex != i && ey != i
    ensures t.up[a] == ox && t.up[b] == oy && t.up[v] == t.secondary[i]
    ensures a != b && a != u && a != v && b != u && b != v
    ensures a != t.root && b != t.root && v != t.root
    ensures x != y && x != ox && x != oy && y != ox && y != oy && ox != oy
    ensures Parents(t)[a] == u && Parents(t)[b] == v && Parents(t)[v] == u
    ensures t.next[t.primary[i]] == x
         || (t.secondary[t.edge[t.next[t.primary[i]]]] == t.next[t.primary[i]] && t.next[t.next[t.primary[i]]] == x)
  {
    var p, s := t.primary[i], t.secondary[i];
    u, v := t.node[p], t.node[s];
    x := PrimarySideLink(t, i);
    SideLinks(t, i, y);
    PrimaryIsNotSecondary(t, i);
    ChildLink(t, p);
    ChildLink(t, x);
    ChildLink(t, y);
    ox, oy := t.outer[x], t.outer[y];
    ex, ey := t.edge[x], t.edge[y];
    a, b := t.node[ox], t.node[oy];
    var par := Parents(t);
    if b == u {
      TwoCycleUnrooted(par, t.root, u, v, |t.up|);
      assert false;
    }
  }

  /** The test on p.next picks the same X after the interchange: the second application undoes the first. */
  lemma PrimarySideLinkStable(t: Topo, i: nat, y: nat)
    requires InnerEdgeOf(t, i) && IsPartner(t, i, y)
    ensures
      var r := Interchange(t, PrimarySideLink(t, i), y);
      && PrimarySideLink(r, i) == PrimarySideLink(t, i)
      && PartnerA(r, i) == PartnerA(t, i) && PartnerB(r, i) == PartnerB(t, i)
  {
    var x, ox, oy, ex, ey, u, v, a, b := NniFacts(t, i, y);
    var r := Interchange(t, x, y);
    var p := t.primary[i];
    var np := t.next[p];
    assert r.secondary[i] == t.secondary[i] && r.primary[i] == p;
    if np != x {
      // np is u's up-link, on neither of the two edges that change
      assert t.node[np] == u;
      assert np != ox && np != oy;
      var enp := t.edge[np];
      assert r.edge[np] == enp;
      assert t.secondary[enp] == np;
      assert enp != ex && enp != ey;
      assert r.secondary[enp] == np;
    }
  }

  // ------------------------------------------------------------------
  // The interchange keeps every tree invariant.
  // ------------------------------------------------------------------

  /** Exactly two nodes change parent: A moves below v and B below u. */
  lemma InterchangeParents(t: Topo, i: nat, y: nat)
    requires InnerEdgeOf(t, i) && IsPartner(t, i, y)
    ensures
      var x := PrimarySideLink(t, i);
      var u, v := t.node[t.primary[i]], t.node[t.secondary[i]];
      var a, b := t.node[t.outer[x]], t.node[t.outer[y]];
      Parents(Interchange(t, x, y)) == Parents(t)[a := v][b := u]
  {
    var x, ox, oy, ex, ey, u, v, a, b := NniFacts(t, i, y);
    var pt, pr := Parents(t), Parents(Interchange(t, x, y));
    var want := pt[a := v][b := u];
    forall n | 0 <= n < |t.up|
      ensures pr[n] == want[n]
    {
      if n != t.root {
        var l := t.up[n];
        assert t.secondary[t.edge[l]] == l;
        assert l != x && l != y;
      }
      ParentAfterSwap(t, x, y, n);
    }
  }

  /** The parent of one node after an interchange, given that x and y are nobody's up-link. */
  lemma ParentAfterSwap(t: Topo, x: nat, y: nat, n: nat)
    requires WellFormed(t) && x < |t.outer| && y < |t.outer| && n < |t.up|
    requires
      var ox, oy := t.outer[x], t.outer[y];
      && x != y && x != ox && x != oy && y != ox && y != oy && ox != oy
      && t.up[t.node[ox]] == ox && t.up[t.node[oy]] == oy
      && t.node[ox] != t.root && t.node[oy] != t.root
      && (n != t.root ==> t.up[n] != x && t.up[n] != y && t.node[t.up[n]] == n)
    ensures
      var a, b := t.node[t.outer[x]], t.node[t.outer[y]];
      Parents(Interchange(t, x, y))[n] == Parents(t)[a := t.node[y]][b := t.node[x]][n]
  {
    var ox, oy := t.outer[x], t.outer[y];
    var r := Interchange(t, x, y);
    var a, b := t.node[ox], t.node[oy];
    if n != t.root {
      var l := t.up[n];
      if l == ox {
        assert n == a && r.outer[l] == y;
      } else if l == oy {
        assert n == b && r.outer[l] == x;
      } else {
        assert r.outer[l] == t.outer[l];
        assert n != a && n != b;
      }
    }
  }

  /**
   * The local picture an interchange of x and y needs: four distinct links,
   * x and y the primary ends of two distinct edges whose secondary ends are
   * their outer partners, and the nodes across x and y non-root with those
   * partners as up-links.
   */
  ghost predicate Swappable(t: Topo, x: nat, y: nat)
    requires WellFormed(t)
  {
    && x < |t.outer| && y < |t.outer|
    && var ox, oy, ex, ey := t.outer[x], t.outer[y], t.edge[x], t.edge[y];
    && x != y && x != ox && x != oy && y != ox && y != oy && ox != oy && ex != ey
    && t.outer[ox] == x && t.outer[oy] == y
    && t.primary[ex] == x && t.secondary[ex] == ox && t.edge[ox] == ex
    && t.primary[ey] == y && t.secondary[ey] == oy && t.edge[oy] == ey
    && t.node[x] != t.node[oy] && t.node[y] != t.node[ox]
    && t.up[t.node[ox]] == ox && t.up[t.node[oy]] == oy
    && t.node[ox] != t.root && t.node[oy] != t.root
  }

  lemma NniSwappable(t: Topo, i: nat, y: nat)
    requires InnerEdgeOf(t, i) && IsPartner(t, i, y)
    ensures Swappable(t, PrimarySideLink(t, i), y)
  {
    var x, ox, oy, ex, ey, u, v, a, b := NniFacts(t, i, y);
  }

  lemma SwapOuterPairs(t: Topo, x: nat, y: nat)
    requires WellFormed(t) && OuterPairs(t) && Swappable(t, x, y)
    ensures OuterPairs(Interchange(t, x, y))
  {
    var r := Interchange(t, x, y);
    var ox, oy := t.outer[x], t.outer[y];
    forall l | 0 <= l < |r.outer|
      ensures r.outer[l] != l && r.outer[r.outer[l]] == l && r.node[r.outer[l]] != r.node[l]
    {
      if l != x && l != y && l != ox && l != oy {
        var o := t.outer[l];
        assert t.outer[o] == l;
        assert o != x && o != y && o != ox && o != oy;
      }
    }
  }

  lemma SwapEdgeEnds(t: Topo, x: nat, y: nat)
    requires WellFormed(t) && EdgeEnds(t) && Swappable(t, x, y)
    ensures EdgeEnds(Interchange(t, x, y))
  {
    var r := Interchange(t, x, y);
    var ox, oy, ex, ey := t.outer[x], t.outer[y], t.edge[x], t.edge[y];
    forall e | 0 <= e < |r.primary|
      ensures r.edge[r.primary[e]] == e && r.edge[r.secondary[e]] == e
      ensures r.outer[r.primary[e]] == r.secondary[e]
    {
      if e != ex && e != ey {
        var pe, se := t.primary[e], t.secondary[e];
        assert t.edge[pe] == e && t.edge[se] == e;
        assert pe != x && pe != y && pe != ox && pe != oy;
        assert se != ox && se != oy;
      }
    }
  }

  lemma SwapLinksOnEdges(t: Topo, x: nat, y: nat)
    requires WellFormed(t) && LinksOnEdges(t) && Swappable(t, x, y)
    ensures LinksOnEdges(Interchange(t, x, y))
  {
    var r := Interchange(t, x, y);
    var ox, oy, ex, ey := t.outer[x], t.outer[y], t.edge[x], t.edge[y];
    forall l | 0 <= l < |r.edge|
      ensures r.primary[r.edge[l]] == l || r.secondary[r.edge[l]] == l
    {
      if l != x && l != y && l != ox && l != oy {
        var e := t.edge[l];
        assert t.primary[e] == l || t.secondary[e] == l;
        assert e != ex && e != ey;
      }
    }
  }

  lemma SwapUpLinks(t: Topo, x: nat, y: nat)
    requires WellFormed(t) && UpLinks(t) && Swappable(t, x, y)
    ensures UpLinks(Interchange(t, x, y))
  {
    var r := Interchange(t, x, y);
    var ox, oy, ex, ey := t.outer[x], t.outer[y], t.edge[x], t.edge[y];
    forall n | 0 <= n < |r.up| && n != r.root
      ensures r.secondary[r.edge[r.up[n]]] == r.up[n]
    {
      var l := t.up[n];
      assert t.secondary[t.edge[l]] == l;
      if l != ox && l != oy {
        assert l != x && l != y;
        assert t.edge[l] != ex && t.edge[l] != ey;
      }
    }
    forall e | 0 <= e < |r.secondary|
      ensures r.node[r.secondary[e]] != r.root && r.up[r.node[r.secondary[e]]] == r.secondary[e]
    {
      assert t.node[t.secondary[e]] != t.root && t.up[t.node[t.secondary[e]]] == t.secondary[e];
    }
  }

  lemma InterchangeKeepsLinks(t: Topo, i: nat, y: nat)
    requires InnerEdgeOf(t, i) && IsPartner(t, i, y)
    ensures
      var r := Interchange(t, PrimarySideLink(t, i), y);
      && Counts(r) && OuterPairs(r) && Rotations(r) && NodeCycles(r)
  {
    NniSwappable(t, i, y);
    SwapOuterPairs(t, PrimarySideLink(t, i), y);
  }

  lemma InterchangeKeepsEdgeEnds(t: Topo, i: nat, y: nat)
    requires InnerEdgeOf(t, i) && IsPartner(t, i, y)
    ensures
      var r := Interchange(t, PrimarySideLink(t, i), y);
      && EdgeEnds(r) && LinksOnEdges(r)
  {
    NniSwappable(t, i, y);
    SwapEdgeEnds(t, PrimarySideLink(t, i), y);
    SwapLinksOnEdges(t, PrimarySideLink(t, i), y);
  }

  lemma InterchangeKeepsUpLinks(t: Topo, i: nat, y: nat)
    requires InnerEdgeOf(t, i) && IsPartner(t, i, y)
    ensures UpLinks(Interchange(t, PrimarySideLink(t, i), y))
  {
    NniSwappable(t, i, y);
    SwapUpLinks(t, PrimarySideLink(t, i), y);
  }

  /** An interchange across an inner edge of a valid tree yields a valid tree, in which i is still inner. */
  lemma InterchangeKeepsTree(t: Topo, i: nat, y: nat)
    requires InnerEdgeOf(t, i) && IsPartner(t, i, y)
    ensures InnerEdgeOf(Interchange(t, PrimarySideLink(t, i), y), i)
  {
    InterchangeKeepsLinks(t, i, y);
    InterchangeKeepsEdgeEnds(t, i, y);
    InterchangeKeepsUpLinks(t, i, y);
    InterchangeKeepsRooted(t, i, y);
    InterchangeKeepsEdgeI(t, i, y);
  }

  lemma InterchangeKeepsRooted(t: Topo, i: nat, y: nat)
    requires InnerEdgeOf(t, i) && IsPartner(t, i, y)
    ensures Rooted(Interchange(t, PrimarySideLink(t, i), y))
  {
    var x, ox, oy, ex, ey, u, v, a, b := NniFacts(t, i, y);
    InterchangeParents(t, i, y);
    InterchangeReachesRoot(Parents(t), t.root, a, b, u, v);
  }

  lemma InterchangeKeepsEdgeI(t: Topo, i: nat, y: nat)
    requires InnerEdgeOf(t, i) && IsPartner(t, i, y)
    ensures
      var r := Interchange(t, PrimarySideLink(t, i), y);
      && r.primary == t.primary && r.secondary[i] == t.secondary[i]
      && r.next == t.next && r.node == t.node && r.up == t.up && r.root == t.root
  {
    var x, ox, oy, ex, ey, u, v, a, b := NniFacts(t, i, y);
  }

  /** Applying the same interchange twice restores every field. */
  lemma InterchangeTwice(t: Topo, i: nat, y: nat)
    requires InnerEdgeOf(t, i) && IsPartner(t, i, y)
    ensures Interchange(Interchange(t, PrimarySideLink(t, i), y), PrimarySideLink(t, i), y) == t
  {
    var x, ox, oy, ex, ey, u, v, a, b := NniFacts(t, i, y);
    assert t.outer[ox] == x && t.outer[oy] == y;
    SwapBack(t, x, y);
  }

  lemma SwapBack(t: Topo, x: nat, y: nat)
    requires WellFormed(t) && x < |t.outer| && y < |t.outer|
    requires
      var ox, oy := t.outer[x], t.outer[y];
      && x != y && x != ox && x != oy && y != ox && y != oy && ox != oy
      && t.outer[ox] == x && t.outer[oy] == y
      && t.edge[ox] == t.edge[x] && t.edge[oy] == t.edge[y]
      && t.secondary[t.edge[x]] == ox && t.secondary[t.edge[y]] == oy
    ensures Interchange(Interchange(t, x, y), x, y) == t
  {
    var ox, oy := t.outer[x], t.outer[y];
    var r := Interchange(t, x, y);
    var r2 := Interchange(r, x, y);
    assert r.outer[x] == oy && r.outer[y] == ox;
    assert r.edge[x] == t.edge[x] && r.edge[y] == t.edge[y];
    assert r2.outer == t.outer;
    assert r2.secondary == t.secondary;
    assert r2.edge == t.edge;
  }

  // ------------------------------------------------------------------
  // The statement sequence performs the interchange.
  // ------------------------------------------------------------------

  /** On four distinct links, the source's statement order has the effect of the clean interchange. */
  lemma AsWrittenIsInterchange(t: Topo, x: nat, y: nat)
    requires WellFormed(t) && x < |t.outer| && y < |t.outer|
    requires
      var ox, oy := t.outer[x], t.outer[y];
      x != y && x != ox && x != oy && y != ox && y != oy && ox != oy
    ensures ExchangeAsWritten(t, x, y) == Interchange(t, x, y)
  {
    var r, c := ExchangeAsWritten(t, x, y), Interchange(t, x, y);
    assert r.outer == c.outer;
    assert r.secondary == c.secondary;
    assert r.edge == c.edge;
  }

  /**
   * When neither X's nor Y's edge is edge i, statements 6 and 7 leave edge
   * i's secondary link alone, so the re-reads of Y find the first Y again.
   */
  lemma RereadsAgree(t: Topo, i: nat, twice: bool)
    requires WellFormed(t) && i < |t.primary|
    requires t.edge[PrimarySideLink(t, i)] != i && t.edge[Partner(t, i, twice)] != i
    ensures NniAsWritten(t, i, twice) == ExchangeAsWritten(t, PrimarySideLink(t, i), Partner(t, i, twice))
  {
    var x, y := PrimarySideLink(t, i), Partner(t, i, twice);
    var t5 := ResetOuters(t, x, y);
    var t6 := ResetSecondary(t5, x);
    assert t6.secondary[i] == t.secondary[i];
    var t7 := ResetSecondary(t6, y);
    assert t7.secondary[i] == t.secondary[i];
  }

  /** Across an inner edge the statements as written perform the interchange of X with Y. */
  lemma NniAsInterchange(t: Topo, i: nat, twice: bool)
    requires InnerEdgeOf(t, i)
    ensures NniAsWritten(t, i, twice) == Interchange(t, PrimarySideLink(t, i), Partner(t, i, twice))
  {
    var y := Partner(t, i, twice);
    var x, ox, oy, ex, ey, u, v, a, b := NniFacts(t, i, y);
    RereadsAgree(t, i, twice);
    AsWrittenIsInterchange(t, x, y);
  }

  /**
   * What the interchange, and so nni_a / nni_b, change across an inner edge: X and Y trade outer
   * partners with back-pointers set symmetrically, the two edges keep X and
   * Y as primary ends and take the new partners as secondary ends, the moved
   * links' edge field follows, and nothing else changes.
   */
  lemma InterchangeEffect(t: Topo, i: nat, y: nat)
    requires InnerEdgeOf(t, i) && IsPartner(t, i, y)
    ensures
      var x := PrimarySideLink(t, i);
      var r := Interchange(t, x, y);
      var ox, oy := t.outer[x], t.outer[y];
      && r.outer[x] == oy && r.outer[oy] == x && r.outer[y] == ox && r.outer[ox] == y
      && r.primary[t.edge[x]] == x && r.secondary[t.edge[x]] == oy && r.edge[oy] == t.edge[x]
      && r.primary[t.edge[y]] == y && r.secondary[t.edge[y]] == ox && r.edge[ox] == t.edge[y]
      && r.primary == t.primary && r.next == t.next && r.node == t.node && r.up == t.up && r.root == t.root
      && r.secondary[i] == t.secondary[i]
      && (forall l :: 0 <= l < |t.outer| && l != x && l != y && l != ox && l != oy ==>
            r.outer[l] == t.outer[l] && r.edge[l] == t.edge[l])
      && (forall e :: 0 <= e < |t.primary| && e != t.edge[x] && e != t.edge[y] ==>
            r.secondary[e] == t.secondary[e])
  {
    var x, ox, oy, ex, ey, u, v, a, b := NniFacts(t, i, y);
    InterchangeAt(t, x, y);
    InterchangeElsewhere(t, x, y);
  }

  /** The interchange of x and y rewires the four links it names, when they are distinct. */
  lemma InterchangeAt(t: Topo, x: nat, y: nat)
    requires WellFormed(t) && x < |t.outer| && y < |t.outer|
    requires x != y && x != t.outer[x] && x != t.outer[y] && y != t.outer[x] && y != t.outer[y] && t.outer[x] != t.outer[y]
    requires t.edge[x] != t.edge[y]
    ensures
      var r := Interchange(t, x, y);
      var ox, oy := t.outer[x], t.outer[y];
      && r.outer[x] == oy && r.outer[oy] == x && r.outer[y] == ox && r.outer[ox] == y
      && r.secondary[t.edge[x]] == oy && r.edge[oy] == t.edge[x]
      && r.secondary[t.edge[y]] == ox && r.edge[ox] == t.edge[y]
      && r.primary == t.primary && r.next == t.next && r.node == t.node && r.up == t.up && r.root == t.root
  {
  }

  /** The interchange of x and y leaves every other link and edge as it was. */
  lemma InterchangeElsewhere(t: Topo, x: nat, y: nat)
    requires WellFormed(t) && x < |t.outer| && y < |t.outer|
    ensures
      var r := Interchange(t, x, y);
      var ox, oy := t.outer[x], t.outer[y];
      && (forall l :: 0 <= l < |t.outer| && l != x && l != y && l != ox && l != oy ==>
            r.outer[l] == t.outer[l] && r.edge[l] == t.edge[l])
      && (forall e :: 0 <= e < |t.primary| && e != t.edge[x] && e != t.edge[y] ==>
            r.secondary[e] == t.secondary[e])
  {
  }

  // ------------------------------------------------------------------
  // The properties of nni_a and nni_b.
  // ------------------------------------------------------------------

  /** nni_a applied twice with the same edge index restores it (tests/tests.cpp:37-42). */
  lemma NniATwice(t: Topo, i: nat)
    requires InnerEdgeOf(t, i)
    ensures NniA(NniA(t, i), i) == t
  {
    var y := PartnerA(t, i);
    NniAsInterchange(t, i, false);
    InterchangeKeepsTree(t, i, y);
    PrimarySideLinkStable(t, i, y);
    NniAsInterchange(NniA(t, i), i, false);
    InterchangeTwice(t, i, y);
  }

  /** nni_a keeps the tree valid and edge i inner. */
  lemma NniAValid(t: Topo, i: nat)
    requires InnerEdgeOf(t, i)
    ensures InnerEdgeOf(NniA(t, i), i)
  {
    NniAsInterchange(t, i, false);
    InterchangeKeepsTree(t, i, PartnerA(t, i));
  }

  /** nni_b applied twice with the same edge index restores it (tests/tests.cpp:44-49). */
  lemma NniBTwice(t: Topo, i: nat)
    requires InnerEdgeOf(t, i)
    ensures NniB(NniB(t, i), i) == t
  {
    var y := PartnerB(t, i);
    NniAsInterchange(t, i, true);
    InterchangeKeepsTree(t, i, y);
    PrimarySideLinkStable(t, i, y);
    NniAsInterchange(NniB(t, i), i, true);
    InterchangeTwice(t, i, y);
  }

  /** nni_b keeps the tree valid and edge i inner. */
  lemma NniBValid(t: Topo, i: nat)
    requires InnerEdgeOf(t, i)
    ensures InnerEdgeOf(NniB(t, i), i)
  {
    NniAsInterchange(t, i, true);
    InterchangeKeepsTree(t, i, PartnerB(t, i));
  }

  /** nni_a moves the child across X below v and the child across Y = s.next below u; no other node changes parent. */
  lemma NniAParents(t: Topo, i: nat)
    requires InnerEdgeOf(t, i)
    ensures
      var x, y := PrimarySideLink(t, i), PartnerA(t, i);
      var u, v := t.node[t.primary[i]], t.node[t.secondary[i]];
      Parents(NniA(t, i)) == Parents(t)[t.node[t.outer[x]] := v][t.node[t.outer[y]] := u]
  {
    NniAsInterchange(t, i, false);
    InterchangeParents(t, i, PartnerA(t, i));
  }

  /** nni_b is the same exchange with Y = s.next.next. */
  lemma NniBParents(t: Topo, i: nat)
    requires InnerEdgeOf(t, i)
    ensures
      var x, y := PrimarySideLink(t, i), PartnerB(t, i);
      var u, v := t.node[t.primary[i]], t.node[t.secondary[i]];
      Parents(NniB(t, i)) == Parents(t)[t.node[t.outer[x]] := v][t.node[t.outer[y]] := u]
  {
    NniAsInterchange(t, i, true);
    InterchangeParents(t, i, PartnerB(t, i));
  }

  // ------------------------------------------------------------------
  // The in-place and copying operations.
  // ------------------------------------------------------------------

  /** Y read from the object through edge i's current secondary link. */
  method PartnerOf(tree: Tree, i: nat, twice: bool) returns (y: nat)
    requires WellFormed(tree.Snapshot()) && i < |tree.primary|
    ensures y == Partner(tree.Snapshot(), i, twice)
  {
    var s := tree.secondary[i];
    y := if twice then tree.next[tree.next[s]] else tree.next[s];
  }

  method ResetOutersInPlace(tree: Tree, x: nat, y: nat)
    requires WellFormed(tree.Snapshot()) && x < |tree.outer| && y < |tree.outer|
    modifies tree
    ensures tree.Snapshot() == ResetOuters(old(tree.Snapshot()), x, y)
  {
    tree.outer := tree.outer[tree.outer[x] := y];
    tree.outer := tree.outer[tree.outer[y] := x];
    var l1 := tree.outer[x];
    tree.outer := tree.outer[x := tree.outer[y]];
    tree.outer := tree.outer[y := l1];
  }

  method ResetSecondaryInPlace(tree: Tree, l: nat)
    requires WellFormed(tree.Snapshot()) && l < |tree.outer|
    modifies tree
    ensures tree.Snapshot() == ResetSecondary(old(tree.Snapshot()), l)
  {
    tree.secondary := tree.secondary[tree.edge[l] := tree.outer[l]];
  }

  method ResetEdgeInPlace(tree: Tree, l: nat)
    requires WellFormed(tree.Snapshot()) && l < |tree.outer|
    modifies tree
    ensures tree.Snapshot() == ResetEdge(old(tree.Snapshot()), l)
  {
    tree.edge := tree.edge[tree.outer[l] := tree.edge[l]];
  }

  /**
   * The nine statements that both branches of nni_a_inplace and
   * nni_b_inplace perform, given X; Y is read afresh before the statements
   * that follow a change of a secondary link.
   */
  method ExchangeSubtrees(tree: Tree, i: nat, x: nat, twice: bool)
    requires WellFormed(tree.Snapshot()) && i < |tree.primary| && x == PrimarySideLink(tree.Snapshot(), i)
    modifies tree
    ensures tree.Snapshot() == NniAsWritten(old(tree.Snapshot()), i, twice)
  {
    var y := PartnerOf(tree, i, twice);
    ResetOutersWellFormed(tree.Snapshot(), x, y);
    ResetOutersInPlace(tree, x, y);
    ResetSecondaryWellFormed(tree.Snapshot(), x);
    ResetSecondaryInPlace(tree, x);
    y := PartnerOf(tree, i, twice);
    ResetSecondaryWellFormed(tree.Snapshot(), y);
    ResetSecondaryInPlace(tree, y);
    ResetEdgeWellFormed(tree.Snapshot(), x);
    ResetEdgeInPlace(tree, x);
    y := PartnerOf(tree, i, twice);
    ResetEdgeInPlace(tree, y);
  }

  /** The source's branch test on p.next, read from the object. */
  method PrimarySideLinkOf(tree: Tree, i: nat) returns (x: nat)
    requires WellFormed(tree.Snapshot()) && i < |tree.primary|
    ensures x == PrimarySideLink(tree.Snapshot(), i)
  {
    var p := tree.primary[i];
    if tree.secondary[tree.edge[tree.next[p]]] == tree.next[p] {
      x := tree.next[tree.next[p]];
    } else {
      x := tree.next[p];
    }
  }

  method NniAInPlace(tree: Tree, i: nat)
    requires WellFormed(tree.Snapshot()) && i < |tree.primary|
    modifies tree
    ensures tree.Snapshot() == NniA(old(tree.Snapshot()), i)
  {
    var x := PrimarySideLinkOf(tree, i);
    ExchangeSubtrees(tree, i, x, false);
  }

  method NniBInPlace(tree: Tree, i: nat)
    requires WellFormed(tree.Snapshot()) && i < |tree.primary|
    modifies tree
    ensures tree.Snapshot() == NniB(old(tree.Snapshot()), i)
  {
    var x := PrimarySideLinkOf(tree, i);
    ExchangeSubtrees(tree, i, x, true);
  }

  /** nni_a: a rewired copy; the argument is left unchanged. */
  method NniACopy(tree: Tree, i: nat) returns (tnew: Tree)
    requires WellFormed(tree.Snapshot()) && i < |tree.primary|
    ensures fresh(tnew) && tnew.Snapshot() == NniA(tree.Snapshot(), i)
  {
    tnew := new Tree.Copy(tree);
    NniAInPlace(tnew, i);
  }

  /** nni_b: a rewired copy; the argument is left unchanged. */
  method NniBCopy(tree: Tree, i: nat) returns (tnew: Tree)
    requires WellFormed(tree.Snapshot()) && i < |tree.primary|
    ensures fresh(tnew) && tnew.Snapshot() == NniB(tree.Snapshot(), i)
  {
    tnew := new Tree.Copy(tree);
    NniBInPlace(tnew, i);
  }

  // ------------------------------------------------------------------
  // Enumerating all NNI neighbours.
  // ------------------------------------------------------------------

  /** The edges below n whose two end nodes are inner, in ascending order. */
  function InnerEdges(t: Topo, n: nat): (es: seq<nat>)
    requires WellFormed(t) && n <= |t.primary|
    ensures forall k :: 0 <= k < |es| ==> es[k] < n && IsInnerEdge(t, es[k])
  {
    if n == 0 then [] else InnerEdges(t, n - 1) + (if IsInnerEdge(t, n - 1) then [n - 1] else [])
  }

  /** Edge e is listed exactly when it is an inner edge below n. */
  lemma {:induction false} InnerEdgesExact(t: Topo, n: nat, e: nat)
    requires WellFormed(t) && n <= |t.primary|
    ensures e in InnerEdges(t, n) <==> e < n && IsInnerEdge(t, e)
  {
    if n > 0 {
      InnerEdgesExact(t, n - 1, e);
    }
  }

  /** The list is in ascending edge order. */
  lemma {:induction false} InnerEdgesSorted(t: Topo, n: nat)
    requires WellFormed(t) && n <= |t.primary|
    ensures forall j, k :: 0 <= j < k < |InnerEdges(t, n)| ==> InnerEdges(t, n)[j] < InnerEdges(t, n)[k]
  {
    if n > 0 {
      InnerEdgesSorted(t, n - 1);
    }
  }

  /** The edges whose score is not positive. */
  function NonPositiveEdges(lqic: seq<real>): set<nat>
  {
    set e: nat | e < |lqic| && lqic[e] <= 0.0
  }

  /** The inner edges below n that lie in keep, in ascending order. */
  function SelectedInnerEdges(t: Topo, keep: set<nat>, n: nat): (es: seq<nat>)
    requires WellFormed(t) && n <= |t.primary|
    ensures forall k :: 0 <= k < |es| ==> es[k] < n && IsInnerEdge(t, es[k]) && es[k] in keep
  {
    if n == 0 then [] else SelectedInnerEdges(t, keep, n - 1) + (if IsInnerEdge(t, n - 1) && n - 1 in keep then [n - 1] else [])
  }

  /** Edge e is listed exactly when it is an inner edge below n that lies in keep. */
  lemma {:induction false} SelectedInnerEdgesExact(t: Topo, keep: set<nat>, n: nat, e: nat)
    requires WellFormed(t) && n <= |t.primary|
    ensures e in SelectedInnerEdges(t, keep, n) <==> e < n && IsInnerEdge(t, e) && e in keep
  {
    if n > 0 {
      SelectedInnerEdgesExact(t, keep, n - 1, e);
    }
  }

  /** The list is in ascending edge order. */
  lemma {:induction false} SelectedInnerEdgesSorted(t: Topo, keep: set<nat>, n: nat)
    requires WellFormed(t) && n <= |t.primary|
    ensures forall j, k :: 0 <= j < k < |SelectedInnerEdges(t, keep, n)| ==>
      SelectedInnerEdges(t, keep, n)[j] < SelectedInnerEdges(t, keep, n)[k]
  {
    if n > 0 {
      SelectedInnerEdgesSorted(t, keep, n - 1);
    }
  }

  /** The inner edges below n whose score is not positive, in ascending order. */
  function NonPositiveInnerEdges(t: Topo, lqic: seq<real>, n: nat): seq<nat>
    requires WellFormed(t) && n <= |t.primary|
  {
    SelectedInnerEdges(t, NonPositiveEdges(lqic), n)
  }

  /** Edge e is listed exactly when it is an inner edge below n whose score is not positive. */
  lemma NonPositiveInnerEdgesExact(t: Topo, lqic: seq<real>, n: nat, e: nat)
    requires WellFormed(t) && n <= |t.primary| && n <= |lqic|
    ensures e in NonPositiveInnerEdges(t, lqic, n) <==> e < n && IsInnerEdge(t, e) && lqic[e] <= 0.0
  {
    SelectedInnerEdgesExact(t, NonPositiveEdges(lqic), n, e);
  }

  /** Every listed edge is below n. */
  predicate EdgesBelow(es: seq<nat>, n: nat)
  {
    forall k :: 0 <= k < |es| ==> es[k] < n
  }

  lemma EdgesBelowSnoc(es: seq<nat>, e: nat, n: nat)
    requires EdgesBelow(es, n) && e < n
    ensures EdgesBelow(es + [e], n)
  {
  }

  /** For each listed edge in turn, its nni_a tree followed by its nni_b tree. */
  function NniResults(t: Topo, es: seq<nat>): (r: seq<Topo>)
    requires WellFormed(t) && EdgesBelow(es, |t.primary|)
    ensures |r| == 2 * |es|
  {
    if es == [] then []
    else NniResults(t, es[..|es| - 1]) + [NniA(t, es[|es| - 1]), NniB(t, es[|es| - 1])]
  }

  lemma NniResultsSnoc(t: Topo, es: seq<nat>, e: nat)
    requires WellFormed(t) && e < |t.primary| && EdgesBelow(es, |t.primary|)
    ensures EdgesBelow(es + [e], |t.primary|)
    ensures NniResults(t, es + [e]) == NniResults(t, es) + [NniA(t, e), NniB(t, e)]
  {
    EdgesBelowSnoc(es, e, |t.primary|);
    assert (es + [e])[..|es|] == es;
  }

  lemma NniResultsAppend(t: Topo, es: seq<nat>, e: nat, trees: seq<Topo>, a: Topo, b: Topo)
    requires WellFormed(t) && e < |t.primary| && EdgesBelow(es, |t.primary|)
    requires trees == NniResults(t, es) && a == NniA(t, e) && b == NniB(t, e)
    ensures EdgesBelow(es + [e], |t.primary|) && trees + [a, b] == NniResults(t, es + [e])
  {
    NniResultsSnoc(t, es, e);
  }

  /** Position 2k holds the nni_a tree of the k-th listed edge and position 2k + 1 its nni_b tree. */
  lemma {:induction false} NniResultsLayout(t: Topo, es: seq<nat>, k: nat)
    requires WellFormed(t) && EdgesBelow(es, |t.primary|)
    requires k < |es|
    ensures NniResults(t, es)[2 * k] == NniA(t, es[k]) && NniResults(t, es)[2 * k + 1] == NniB(t, es[k])
    decreases |es|
  {
    var front := es[..|es| - 1];
    if k < |es| - 1 {
      NniResultsLayout(t, front, k);
      assert NniResults(t, es) == NniResults(t, front) + [NniA(t, es[|es| - 1]), NniB(t, es[|es| - 1])];
    }
  }

  /** Every tree in the list is valid when the input is valid and every listed edge is inner. */
  lemma NniResultsValid(t: Topo, es: seq<nat>)
    requires ValidTopology(t)
    requires forall k :: 0 <= k < |es| ==> es[k] < |t.primary| && IsInnerEdge(t, es[k])
    ensures forall k :: 0 <= k < |NniResults(t, es)| ==> ValidTopology(NniResults(t, es)[k])
  {
    forall k | 0 <= k < |NniResults(t, es)|
      ensures ValidTopology(NniResults(t, es)[k])
    {
      var j := k / 2;
      NniResultsPairValid(t, es, j);
      PairCoversIndex(NniResults(t, es), j, k);
    }
  }

  lemma PairCoversIndex(ts: seq<Topo>, j: nat, k: nat)
    requires 2 * j + 1 < |ts| && j == k / 2
    requires ValidTopology(ts[2 * j]) && ValidTopology(ts[2 * j + 1])
    ensures ValidTopology(ts[k])
  {
    if k != 2 * j {
      assert k == 2 * j + 1;
    }
  }

  lemma NniResultsPairValid(t: Topo, es: seq<nat>, j: nat)
    requires ValidTopology(t)
    requires forall k :: 0 <= k < |es| ==> es[k] < |t.primary| && IsInnerEdge(t, es[k])
    requires j < |es|
    ensures ValidTopology(NniResults(t, es)[2 * j]) && ValidTopology(NniResults(t, es)[2 * j + 1])
  {
    NniResultsLayout(t, es, j);
    NniAValid(t, es[j]);
    NniBValid(t, es[j]);
  }

  /** Every tree in the list is a well-formed arena. */
  lemma NniResultsWellFormed(t: Topo, es: seq<nat>, k: nat)
    requires WellFormed(t) && EdgesBelow(es, |t.primary|)
    requires k < |NniResults(t, es)|
    ensures WellFormed(NniResults(t, es)[k])
  {
    var j := k / 2;
    NniResultsPairWellFormed(t, es, j);
    if k == 2 * j {
      SameTreeWellFormed(NniResults(t, es)[k], NniResults(t, es)[2 * j]);
    } else {
      assert k == 2 * j + 1;
      SameTreeWellFormed(NniResults(t, es)[k], NniResults(t, es)[2 * j + 1]);
    }
  }

  lemma NniResultsPairWellFormed(t: Topo, es: seq<nat>, j: nat)
    requires WellFormed(t) && EdgesBelow(es, |t.primary|)
    requires j < |es|
    ensures WellFormed(NniResults(t, es)[2 * j]) && WellFormed(NniResults(t, es)[2 * j + 1])
  {
    NniResultsLayout(t, es, j);
  }

  lemma SameTreeWellFormed(a: Topo, b: Topo)
    requires a == b && WellFormed(b)
    ensures WellFormed(a)
  {
  }

  /** When every edge below n is kept, the selection is the list of all inner edges. */
  lemma {:induction false} SelectedAllInner(t: Topo, keep: set<nat>, n: nat)
    requires WellFormed(t) && n <= |t.primary|
    requires forall e: nat :: e < n ==> e in keep
    ensures SelectedInnerEdges(t, keep, n) == InnerEdges(t, n)
  {
    if n > 0 {
      SelectedAllInner(t, keep, n - 1);
    }
  }

  /** With no positive score, nni_only_negative_lqic expands the same edges as nni. */
  lemma NonPositiveAllInner(t: Topo, lqic: seq<real>, n: nat)
    requires WellFormed(t) && n <= |t.primary| && n <= |lqic|
    requires forall e :: 0 <= e < n ==> lqic[e] <= 0.0
    ensures NonPositiveInnerEdges(t, lqic, n) == InnerEdges(t, n)
  {
    SelectedAllInner(t, NonPositiveEdges(lqic), n);
  }

  /** Inner edge e exists and one of its two rewirings is not a valid topology. */
  ghost predicate NniBreaks(t: Topo, e: nat)
  {
    WellFormed(t) && e < |t.primary| && IsInnerEdge(t, e) && !(ValidTopology(NniA(t, e)) && ValidTopology(NniB(t, e)))
  }

  const InvalidNni := "NNI produced invalid topology!"

  /** Copy the nni_a and nni_b trees of inner edge i, append them and validate them. */
  method AppendNeighbours(t: Topo, i: nat, ghost es: seq<nat>, trees: seq<Topo>)
    returns (trees': seq<Topo>, valid: bool)
    requires WellFormed(t) && i < |t.primary| && IsInnerEdge(t, i)
    requires EdgesBelow(es, |t.primary|) && trees == NniResults(t, es)
    ensures EdgesBelow(es + [i], |t.primary|) && trees' == NniResults(t, es + [i])
    ensures !valid <==> NniBreaks(t, i)
  {
    var tnew := new Tree.FromTopo(t);
    NniAInPlace(tnew, i);
    var a := tnew.Snapshot();
    var tnew2 := new Tree.FromTopo(t);
    NniBInPlace(tnew2, i);
    var b := tnew2.Snapshot();
    NniResultsAppend(t, es, i, trees, a, b);
    trees' := trees + [a, b];
    valid := ValidTopology(a) && ValidTopology(b);
  }

  /** One pass of the nni loop: edge i is expanded when it is inner. */
  method ExpandInner(t: Topo, i: nat, ghost es: seq<nat>, trees: seq<Topo>)
    returns (trees': seq<Topo>, ghost es': seq<nat>, valid: bool)
    requires WellFormed(t) && i < |t.primary|
    requires es == InnerEdges(t, i) && EdgesBelow(es, |t.primary|) && trees == NniResults(t, es)
    ensures es' == InnerEdges(t, i + 1)
    ensures valid ==> EdgesBelow(es', |t.primary|) && trees' == NniResults(t, es')
    ensures !valid <==> NniBreaks(t, i)
  {
    es' := InnerEdges(t, i + 1);
    if IsInnerEdge(t, i) {
      assert es' == es + [i];
      trees', valid := AppendNeighbours(t, i, es, trees);
    } else {
      assert es' == es;
      trees', valid := trees, true;
    }
  }

  /**
   * One pass of the nni_only_negative_lqic loop: edge i is expanded when it is
   * inner and its score is not positive; keep is the set of such edges.
   */
  method ExpandNonPositive(t: Topo, lqic: seq<real>, ghost keep: set<nat>, i: nat, ghost es: seq<nat>, trees: seq<Topo>)
    returns (trees': seq<Topo>, ghost es': seq<nat>, valid: bool)
    requires WellFormed(t) && i < |t.primary| && |t.primary| <= |lqic| && keep == NonPositiveEdges(lqic)
    requires es == SelectedInnerEdges(t, keep, i) && EdgesBelow(es, |t.primary|) && trees == NniResults(t, es)
    ensures es' == SelectedInnerEdges(t, keep, i + 1)
    ensures valid ==> EdgesBelow(es', |t.primary|) && trees' == NniResults(t, es')
    ensures !valid <==> i in keep && NniBreaks(t, i)
  {
    es' := SelectedInnerEdges(t, keep, i + 1);
    if IsInnerEdge(t, i) && !(lqic[i] > 0.0) {
      assert i in keep;
      assert es' == es + [i];
      trees', valid := AppendNeighbours(t, i, es, trees);
    } else {
      assert i !in keep || !IsInnerEdge(t, i);
      assert es' == es;
      trees', valid := trees, true;
    }
  }

  /** An inner edge of a valid topology never breaks it. */
  lemma ValidNeverBreaks(t: Topo, e: nat)
    requires ValidTopology(t)
    ensures !NniBreaks(t, e)
  {
    if e < |t.primary| && IsInnerEdge(t, e) {
      NniAValid(t, e);
      NniBValid(t, e);
    }
  }

  /** Some index below n satisfies p, checked index by index as the nni loops go. */
  ghost predicate AnyBelow(p: nat -> bool, n: nat)
  {
    n > 0 && (AnyBelow(p, n - 1) || p(n - 1))
  }

  /** AnyBelow holds exactly when an index below n satisfies p. */
  lemma {:induction false} AnyBelowExists(p: nat -> bool, n: nat)
    ensures AnyBelow(p, n) <==> exists e: nat :: e < n && p(e)
  {
    if n > 0 {
      AnyBelowExists(p, n - 1);
      if exists e: nat :: e < n && p(e) {
        var e: nat :| e < n && p(e);
        if e < n - 1 {
          assert exists e': nat :: e' < n - 1 && p(e');
        }
      }
    }
  }

  /** The edges that break their topology. */
  ghost function Breaking(t: Topo): nat -> bool
  {
    (e: nat) => NniBreaks(t, e)
  }

  /** The edges with a score that is not positive that break their topology. */
  ghost function NonPositiveBreaking(t: Topo, lqic: seq<real>): nat -> bool
  {
    (e: nat) => e < |lqic| && lqic[e] <= 0.0 && NniBreaks(t, e)
  }

  /** Once no edge below |primary| breaks, none at all does. */
  lemma NoneBreakBeyond(t: Topo)
    requires !AnyBelow(Breaking(t), |t.primary|)
    ensures !exists e: nat :: NniBreaks(t, e)
  {
    AnyBelowExists(Breaking(t), |t.primary|);
    forall e: nat
      ensures !NniBreaks(t, e)
    {
      if e < |t.primary| {
        assert !Breaking(t)(e);
      }
    }
  }

  /** As NoneBreakBeyond, among the edges whose score is not positive. */
  lemma NoNonPositiveBreakBeyond(t: Topo, lqic: seq<real>)
    requires !AnyBelow(NonPositiveBreaking(t, lqic), |t.primary|)
    ensures !exists e: nat :: e < |lqic| && lqic[e] <= 0.0 && NniBreaks(t, e)
  {
    AnyBelowExists(NonPositiveBreaking(t, lqic), |t.primary|);
    forall e: nat | e < |lqic| && lqic[e] <= 0.0
      ensures !NniBreaks(t, e)
    {
      if e < |t.primary| {
        assert !NonPositiveBreaking(t, lqic)(e);
      }
    }
  }

  /** The loop of nni over the topology value; `bad` names the inner edge whose rewiring failed. */
  method InnerNeighbours(t: Topo) returns (trees: seq<Topo>, valid: bool, ghost bad: nat)
    requires WellFormed(t)
    ensures valid ==> trees == NniResults(t, InnerEdges(t, |t.primary|))
    ensures valid <==> !exists e: nat :: NniBreaks(t, e)
    ensures !valid ==> NniBreaks(t, bad)
  {
    ghost var es: seq<nat> := [];
    trees, valid, bad := [], true, 0;
    var i: nat := 0;
    while i < |t.primary| && valid
      invariant i <= |t.primary|
      invariant valid ==> es == InnerEdges(t, i) && EdgesBelow(es, |t.primary|) && trees == NniResults(t, es)
      invariant valid ==> !AnyBelow(Breaking(t), i)
      invariant !valid ==> NniBreaks(t, bad)
    {
      bad := i;
      trees, es, valid := ExpandInner(t, i, es, trees);
      i := i + 1;
    }
    if valid {
      NoneBreakBeyond(t);
    }
  }

  /** The loop of nni_only_negative_lqic over the topology value. */
  method NonPositiveNeighbours(t: Topo, lqic: seq<real>) returns (trees: seq<Topo>, valid: bool, ghost bad: nat)
    requires WellFormed(t) && |t.primary| <= |lqic|
    ensures valid ==> trees == NniResults(t, NonPositiveInnerEdges(t, lqic, |t.primary|))
    ensures valid <==> !exists e: nat :: e < |lqic| && lqic[e] <= 0.0 && NniBreaks(t, e)
    ensures !valid ==> NniBreaks(t, bad)
  {
    ghost var keep := NonPositiveEdges(lqic);
    ghost var es: seq<nat> := [];
    trees, valid, bad := [], true, 0;
    var i: nat := 0;
    while i < |t.primary| && valid
      invariant i <= |t.primary|
      invariant valid ==> es == SelectedInnerEdges(t, keep, i) && EdgesBelow(es, |t.primary|) && trees == NniResults(t, es)
      invariant valid ==> !AnyBelow(NonPositiveBreaking(t, lqic), i)
      invariant !valid ==> bad in keep && NniBreaks(t, bad)
    {
      bad := i;
      trees, es, valid := ExpandNonPositive(t, lqic, keep, i, es, trees);
      i := i + 1;
    }
    if valid {
      NoNonPositiveBreakBeyond(t, lqic);
    } else {
      assert bad < |lqic| && lqic[bad] <= 0.0 && NniBreaks(t, bad);
    }
  }

  /**
   * nni: the nni_a and nni_b neighbours of every inner edge in ascending edge
   * order, failing if one of them does not validate.
   */
  method Nni(tree: Tree) returns (res: Result<seq<Topo>>)
    requires WellFormed(tree.Snapshot())
    ensures res.Ok? ==> res.value == NniResults(tree.Snapshot(), InnerEdges(tree.Snapshot(), |tree.primary|))
    ensures res.Err? ==> res.msg == InvalidNni
    ensures res.Err? <==> exists e: nat :: NniBreaks(tree.Snapshot(), e)
    ensures tree.Valid() ==> res.Ok?
  {
    var t := tree.Snapshot();
    var trees, valid, bad := InnerNeighbours(t);
    assert tree.Snapshot() == t;
    if !valid {
      if ValidTopology(t) {
        ValidNeverBreaks(t, bad);
      }
      return Err(InvalidNni);
    }
    return Ok(trees);
  }

  /** nni_only_negative_lqic: as nni, but edges with a positive score are skipped. */
  method NniOnlyNegativeLqic(tree: Tree, lqic: seq<real>) returns (res: Result<seq<Topo>>)
    requires WellFormed(tree.Snapshot()) && |tree.primary| <= |lqic|
    ensures res.Ok? ==> res.value == NniResults(tree.Snapshot(), NonPositiveInnerEdges(tree.Snapshot(), lqic, |tree.primary|))
    ensures res.Err? ==> res.msg == InvalidNni
    ensures res.Err? <==> exists e: nat :: e < |lqic| && lqic[e] <= 0.0 && NniBreaks(tree.Snapshot(), e)
    ensures tree.Valid() ==> res.Ok?
  {
    var t := tree.Snapshot();
    var trees, valid, bad := NonPositiveNeighbours(t, lqic);
    assert tree.Snapshot() == t;
    if !valid {
      if ValidTopology(t) {
        ValidNeverBreaks(t, bad);
      }
      return Err(InvalidNni);
    }
    return Ok(trees);
  }

  // ------------------------------------------------------------------
  // The example of tests/tests.cpp:22-35.
  // ------------------------------------------------------------------

  /**
   * ((A,B),C,D) with the root (node 0) joined to the cherry (node 1) by edge
   * 0 and to C (node 4) and D (node 5); A is node 2 and B node 3.
   */
  function Quartet(): Topo
  {
    Topo(outer := [3, 8, 9, 0, 6, 7, 4, 5, 1, 2],
         next := [1, 2, 0, 4, 5, 3, 6, 7, 8, 9],
         node := [0, 0, 0, 1, 1, 1, 2, 3, 4, 5],
         edge := [0, 3, 4, 0, 1, 2, 1, 2, 3, 4],
         primary := [0, 4, 5, 1, 2],
         secondary := [3, 6, 7, 8, 9],
         up := [0, 3, 6, 7, 8, 9],
         root := 0)
  }

  /** nni_a across the root edge gives ((C,B),A,D), nni_b gives ((A,C),B,D). */
  lemma QuartetNni()
    ensures InnerEdgeOf(Quartet(), 0)
    ensures Parents(Quartet()) == [0, 0, 1, 1, 0, 0]
    ensures Parents(NniA(Quartet(), 0)) == [0, 0, 0, 1, 1, 0]
    ensures Parents(NniB(Quartet(), 0)) == [0, 0, 1, 0, 1, 0]
  {
    QuartetValid();
    QuartetNniA();
    QuartetNniB();
  }

  lemma QuartetNniA()
    requires ValidTopology(Quartet()) && Parents(Quartet()) == [0, 0, 1, 1, 0, 0]
    ensures Parents(NniA(Quartet(), 0)) == [0, 0, 0, 1, 1, 0]
  {
    var t := Quartet();
    assert IsInnerEdge(t, 0);
    assert PrimarySideLink(t, 0) == 1 && PartnerA(t, 0) == 4;
    assert t.node[t.outer[1]] == 4 && t.node[t.outer[4]] == 2;
    assert t.node[t.primary[0]] == 0 && t.node[t.secondary[0]] == 1;
    NniAParents(t, 0);
    QuartetUpdate(Parents(t), 4, 2);
  }

  lemma QuartetNniB()
    requires ValidTopology(Quartet()) && Parents(Quartet()) == [0, 0, 1, 1, 0, 0]
    ensures Parents(NniB(Quartet(), 0)) == [0, 0, 1, 0, 1, 0]
  {
    var t := Quartet();
    assert IsInnerEdge(t, 0);
    assert PrimarySideLink(t, 0) == 1 && PartnerB(t, 0) == 5;
    assert t.node[t.outer[1]] == 4 && t.node[t.outer[5]] == 3;
    assert t.node[t.primary[0]] == 0 && t.node[t.secondary[0]] == 1;
    NniBParents(t, 0);
    QuartetUpdate(Parents(t), 4, 3);
  }

  /** Hanging node x from node 1 and node y from the root in the quartet's parent map. */
  lemma QuartetUpdate(par: seq<nat>, x: nat, y: nat)
    requires par == [0, 0, 1, 1, 0, 0] && x < 6 && y < 6
    ensures par[x := 1][y := 0] == [0, 0, 1, 1, 0, 0][x := 1][y := 0]
  {
  }

  lemma QuartetValid()
    ensures ValidTopology(Quartet())
    ensures Parents(Quartet()) == [0, 0, 1, 1, 0, 0]
  {
    QuartetWellFormed();
    QuartetLinks();
    QuartetEdges();
    QuartetNodes();
    QuartetRooted();
  }

  lemma QuartetWellFormed()
    ensures WellFormed(Quartet()) && Counts(Quartet())
  {
    var t := Quartet();
    forall l | 0 <= l < 10
      ensures t.outer[l] < 10 && t.next[l] < 10 && t.node[l] < 6 && t.edge[l] < 5
    {
      QuartetLink(l);
    }
    forall e | 0 <= e < 5
      ensures t.primary[e] < 10 && t.secondary[e] < 10
    {
      QuartetEdge(e);
    }
    forall n | 0 <= n < 6
      ensures t.up[n] < 10
    {
      QuartetNode(n);
    }
  }

  lemma QuartetLinks()
    requires WellFormed(Quartet())
    ensures OuterPairs(Quartet()) && Rotations(Quartet()) && NodeCycles(Quartet()) && LinksOnEdges(Quartet())
  {
    var t := Quartet();
    forall l | 0 <= l < 10
      ensures t.outer[l] != l && t.outer[t.outer[l]] == l && t.node[t.outer[l]] != t.node[l]
      ensures t.node[t.next[l]] == t.node[l]
      ensures t.next[l] == l || (t.next[t.next[l]] != l && t.next[t.next[t.next[l]]] == l)
      ensures var u := t.up[t.node[l]]; l == u || t.next[l] == u || t.next[t.next[l]] == u
      ensures t.primary[t.edge[l]] == l || t.secondary[t.edge[l]] == l
    {
      QuartetLink(l);
    }
  }

  lemma QuartetEdges()
    requires WellFormed(Quartet())
    ensures EdgeEnds(Quartet())
  {
    var t := Quartet();
    forall e | 0 <= e < 5
      ensures t.edge[t.primary[e]] == e && t.edge[t.secondary[e]] == e && t.outer[t.primary[e]] == t.secondary[e]
    {
      QuartetEdge(e);
    }
  }

  lemma QuartetNodes()
    requires WellFormed(Quartet())
    ensures UpLinks(Quartet())
  {
    var t := Quartet();
    forall e | 0 <= e < 5
      ensures t.node[t.secondary[e]] != t.root && t.up[t.node[t.secondary[e]]] == t.secondary[e]
    {
      QuartetEdge(e);
    }
    forall n | 0 <= n < 6
      ensures t.node[t.up[n]] == n
      ensures n != t.root ==> t.secondary[t.edge[t.up[n]]] == t.up[n]
    {
      QuartetNode(n);
    }
  }

  lemma QuartetLink(l: nat)
    requires l < 10
    ensures var t := Quartet();
      && t.outer[l] < 10 && t.next[l] < 10 && t.node[l] < 6 && t.edge[l] < 5
      && t.outer[l] != l && t.outer[t.outer[l]] == l && t.node[t.outer[l]] != t.node[l]
      && t.node[t.next[l]] == t.node[l]
      && (t.next[l] == l || (t.next[t.next[l]] != l && t.next[t.next[t.next[l]]] == l))
      && (var u := t.up[t.node[l]]; l == u || t.next[l] == u || t.next[t.next[l]] == u)
      && (t.primary[t.edge[l]] == l || t.secondary[t.edge[l]] == l)
  {
    if l == 0 {} else if l == 1 {} else if l == 2 {} else if l == 3 {} else if l == 4 {}
    else if l == 5 {} else if l == 6 {} else if l == 7 {} else if l == 8 {} else {}
  }

  lemma QuartetEdge(e: nat)
    requires e < 5
    ensures var t := Quartet();
      && t.primary[e] < 10 && t.secondary[e] < 10
      && t.edge[t.primary[e]] == e && t.edge[t.secondary[e]] == e && t.outer[t.primary[e]] == t.secondary[e]
      && t.node[t.secondary[e]] != t.root && t.up[t.node[t.secondary[e]]] == t.secondary[e]
  {
    if e == 0 {} else if e == 1 {} else if e == 2 {} else if e == 3 {} else {}
  }

  lemma QuartetNode(n: nat)
    requires n < 6
    ensures var t := Quartet();
      && t.up[n] < 10
      && t.node[t.up[n]] == n
      && (n != t.root ==> t.secondary[t.edge[t.up[n]]] == t.up[n])
      && Parents(t)[n] == [0, 0, 1, 1, 0, 0][n]
  {
    if n == 0 {} else if n == 1 {} else if n == 2 {} else if n == 3 {} else if n == 4 {} else {}
  }

  lemma QuartetRooted()
    ensures Parents(Quartet()) == [0, 0, 1, 1, 0, 0] && Rooted(Quartet())
  {
    QuartetParents();
    QuartetReachesRoot(Parents(Quartet()));
  }

  lemma QuartetParents()
    ensures Parents(Quartet()) == [0, 0, 1, 1, 0, 0]
  {
    var par := Parents(Quartet());
    forall n | 0 <= n < 6
      ensures par[n] == [0, 0, 1, 1, 0, 0][n]
    {
      QuartetNode(n);
    }
  }

  lemma QuartetReachesRoot(par: seq<nat>)
    requires par == [0, 0, 1, 1, 0, 0]
    ensures forall x :: 0 <= x < 6 ==> Ancestor(par, x, 6) == 0
  {
    forall x | 0 <= x < 6
      ensures Ancestor(par, x, 6) == 0
    {
      if x == 2 || x == 3 {
        AncestorAdd(par, x, 2, 4);
        AncestorOfRoot(par, 0, 4);
      } else {
        AncestorAdd(par, x, 1, 5);
        AncestorOfRoot(par, 0, 5);
      }
    }
  }
}
