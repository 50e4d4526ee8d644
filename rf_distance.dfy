/**
 * taxa_to_prune of eval/rf_distance.py: the taxa of each of two trees whose
 * string form names no taxon of the other tree, those of the first tree
 * first, each part in namespace order.
 *
 * A taxon namespace is a sequence of taxa of any type T; `str` is Python's
 * str() on a taxon, the only thing the comparison looks at.
 */
module RfDistance {

  /** Whether some taxon of ns has the string form name. */
  predicate Named<T>(ns: seq<T>, str: T -> string, name: string)
  {
    exists k :: 0 <= k < |ns| && str(ns[k]) == name
  }

  /** The taxa of xs, in order, whose string form names no taxon of ys. */
  function Missing<T>(xs: seq<T>, ys: seq<T>, str: T -> string): seq<T>
  {
    if xs == [] then []
    else Missing(xs[..|xs| - 1], ys, str) + (if Named(ys, str, str(xs[|xs| - 1])) then [] else [xs[|xs| - 1]])
  }

  /** The list taxa_to_prune returns: the missing taxa of tree 1, then those of tree 2. */
  function Prune<T>(ns1: seq<T>, ns2: seq<T>, str: T -> string): seq<T>
  {
    Missing(ns1, ns2, str) + Missing(ns2, ns1, str)
  }

  /** The inner loop: is there a taxon in ys with the same string form as x? Stops at the first match. */
  method Found<T>(x: T, ys: seq<T>, str: T -> string) returns (found: bool)
    ensures found <==> Named(ys, str, str(x))
  {
    found := false;
    var k := 0;
    while k < |ys|
      invariant 0 <= k <= |ys|
      invariant !Named(ys[..k], str, str(x))
    {
      if str(x) == str(ys[k]) {
        found := true;
        assert ys[k] == ys[..k + 1][k];
        NamedPrefix(ys, k + 1, str, str(x));
        break;
      }
      assert ys[..k + 1] == ys[..k] + [ys[k]];
      NamedSnoc(ys[..k], ys[k], str, str(x));
      k := k + 1;
    }
    if !found {
      assert ys[..k] == ys;
    }
  }

  /** One outer loop: append every taxon of xs that Found misses in ys. */
  method AppendMissing<T>(prune: seq<T>, xs: seq<T>, ys: seq<T>, str: T -> string) returns (prune': seq<T>)
    ensures prune' == prune + Missing(xs, ys, str)
  {
    prune' := prune;
    var k := 0;
    while k < |xs|
      invariant 0 <= k <= |xs|
      invariant prune' == prune + Missing(xs[..k], ys, str)
    {
      var found := Found(xs[k], ys, str);
      assert xs[..k + 1][..k] == xs[..k];
      if !found {
        prune' := prune' + [xs[k]];
      }
      k := k + 1;
    }
    assert xs[..k] == xs;
  }

  /** taxa_to_prune: the missing taxa of tree 1 followed by those of tree 2. */
  method TaxaToPrune<T>(ns1: seq<T>, ns2: seq<T>, str: T -> string) returns (prune: seq<T>)
    ensures prune == Prune(ns1, ns2, str)
  {
    prune := AppendMissing([], ns1, ns2, str);
    prune := AppendMissing(prune, ns2, ns1, str);
  }

  // ------------------------------------------------------------------
  // Properties of the specification.
  // ------------------------------------------------------------------

  lemma NamedSnoc<T>(ys: seq<T>, y: T, str: T -> string, name: string)
    ensures Named(ys + [y], str, name) <==> Named(ys, str, name) || str(y) == name
  {
    if Named(ys + [y], str, name) {
      var k :| 0 <= k < |ys| + 1 && str((ys + [y])[k]) == name;
      if k < |ys| {
        assert (ys + [y])[k] == ys[k];
      }
    }
    if Named(ys, str, name) {
      var k :| 0 <= k < |ys| && str(ys[k]) == name;
      assert (ys + [y])[k] == ys[k];
    }
    if str(y) == name {
      assert (ys + [y])[|ys|] == y;
    }
  }

  lemma NamedPrefix<T>(ys: seq<T>, n: nat, str: T -> string, name: string)
    requires n <= |ys| && Named(ys[..n], str, name)
    ensures Named(ys, str, name)
  {
    var k :| 0 <= k < n && str(ys[..n][k]) == name;
    assert ys[..n][k] == ys[k];
  }

  /** A taxon of tree 1 is in the first part exactly when its string form names no taxon of tree 2, and the part holds nothing else. */
  lemma {:induction false} MissingExact<T>(xs: seq<T>, ys: seq<T>, str: T -> string, x: T)
    ensures x in Missing(xs, ys, str) <==> x in xs && !Named(ys, str, str(x))
  {
    if xs != [] {
      var init, last := xs[..|xs| - 1], xs[|xs| - 1];
      MissingExact(init, ys, str, x);
      assert xs == init + [last];
    }
  }

  /** Missing keeps the namespace order: it distributes over concatenation. */
  lemma {:induction false} MissingAppend<T>(xs: seq<T>, xs': seq<T>, ys: seq<T>, str: T -> string)
    ensures Missing(xs + xs', ys, str) == Missing(xs, ys, str) + Missing(xs', ys, str)
    decreases |xs'|
  {
    if xs' == [] {
      assert xs + xs' == xs;
    } else {
      var init, last := xs'[..|xs'| - 1], xs'[|xs'| - 1];
      assert (xs + xs')[..|xs + xs'| - 1] == xs + init;
      MissingAppend(xs, init, ys, str);
    }
  }

  /** Every taxon returned comes from one of the two namespaces and its string form names no taxon of the other. */
  lemma PruneExact<T>(ns1: seq<T>, ns2: seq<T>, str: T -> string, x: T)
    ensures x in Prune(ns1, ns2, str) <==>
      (x in ns1 && !Named(ns2, str, str(x))) || (x in ns2 && !Named(ns1, str, str(x)))
  {
    MissingExact(ns1, ns2, str, x);
    MissingExact(ns2, ns1, str, x);
  }

  /** A taxon whose string form occurs in both namespaces is never returned. */
  lemma SharedNeverPruned<T>(ns1: seq<T>, ns2: seq<T>, str: T -> string, x: T)
    requires Named(ns1, str, str(x)) && Named(ns2, str, str(x))
    ensures x !in Prune(ns1, ns2, str)
  {
    PruneExact(ns1, ns2, str, x);
  }

  /** Every taxon of xs whose name ys also carries is dropped: with the same names on both sides nothing is left. */
  lemma {:induction false} MissingNone<T>(xs: seq<T>, ys: seq<T>, str: T -> string)
    requires forall k :: 0 <= k < |xs| ==> Named(ys, str, str(xs[k]))
    ensures Missing(xs, ys, str) == []
  {
    if xs != [] {
      MissingNone(xs[..|xs| - 1], ys, str);
    }
  }

  /** Two namespaces with the same list of string forms give an empty result. */
  lemma SameNamesPruneNothing<T>(ns1: seq<T>, ns2: seq<T>, str: T -> string)
    requires |ns1| == |ns2| && forall k :: 0 <= k < |ns1| ==> str(ns1[k]) == str(ns2[k])
    ensures Prune(ns1, ns2, str) == []
  {
    forall k | 0 <= k < |ns1|
      ensures Named(ns2, str, str(ns1[k]))
    {
    }
    forall k | 0 <= k < |ns2|
      ensures Named(ns1, str, str(ns2[k]))
    {
    }
    MissingNone(ns1, ns2, str);
    MissingNone(ns2, ns1, str);
  }

  /** Against an empty namespace every taxon is missing, in order. */
  lemma {:induction false} MissingFromEmpty<T>(xs: seq<T>, str: T -> string)
    ensures Missing(xs, [], str) == xs
  {
    if xs != [] {
      MissingFromEmpty(xs[..|xs| - 1], str);
      assert xs == xs[..|xs| - 1] + [xs[|xs| - 1]];
    }
  }
}
