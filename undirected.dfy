/** The part of an undirected `networkx.Graph` the core relies on: the order in
    which `G.edges(data=True)` reports the edges. Nodes keep their insertion
    order; each node keeps its neighbours in the order the edges were created;
    the edge view walks the nodes in order and reports each edge once, from the
    endpoint that comes first among the nodes. So the view is grouped by that
    endpoint, and inside a group the edges keep their creation order. */
module Undirected {
  import opened Util

  datatype Edge<D> = Edge(u: string, v: string, data: D)

  /** Position of `x` among the nodes, or `|nodes|` when absent. */
  function IndexOf(nodes: seq<string>, x: string): (i: nat)
    ensures i <= |nodes|
    ensures i < |nodes| ==> nodes[i] == x
    ensures i == |nodes| <==> x !in nodes
  {
    if nodes == [] then 0 else if nodes[0] == x then 0 else 1 + IndexOf(nodes[1..], x)
  }

  /** `x` is at its first position. */
  lemma IndexOfFirst(nodes: seq<string>, x: string, j: nat)
    requires j < |nodes| && nodes[j] == x
    ensures IndexOf(nodes, x) <= j
  {
    if nodes[0] != x {
      IndexOfFirst(nodes[1..], x, j - 1);
    }
  }

  /** The edge as reported: from the endpoint that comes first. */
  function Canon<D>(nodes: seq<string>, e: Edge<D>): Edge<D> {
    if IndexOf(nodes, e.v) < IndexOf(nodes, e.u) then Edge(e.v, e.u, e.data) else e
  }

  /** The node under which the view reports the edge. */
  function Low<D>(nodes: seq<string>, e: Edge<D>): nat {
    Min(IndexOf(nodes, e.u), IndexOf(nodes, e.v))
  }

  /** The edges reported under node `k`, in creation order. */
  function Row<D>(nodes: seq<string>, es: seq<Edge<D>>, k: nat): seq<Edge<D>> {
    if es == [] then []
    else (if Low(nodes, es[0]) == k then [Canon(nodes, es[0])] else []) + Row(nodes, es[1..], k)
  }

  function Rows<D>(nodes: seq<string>, es: seq<Edge<D>>, n: nat): seq<Edge<D>> {
    if n == 0 then [] else Rows(nodes, es, n - 1) + Row(nodes, es, n - 1)
  }

  /** `list(G.edges(data=True))` for a graph with these nodes and these edges
      listed in creation order. */
  function EdgeView<D>(nodes: seq<string>, es: seq<Edge<D>>): seq<Edge<D>> {
    Rows(nodes, es, |nodes|)
  }

  /** Every edge as reported, in creation order. */
  function CanonAll<D>(nodes: seq<string>, es: seq<Edge<D>>): seq<Edge<D>> {
    if es == [] then [] else [Canon(nodes, es[0])] + CanonAll(nodes, es[1..])
  }

  /** The edges reported under the first `n` nodes, in creation order. */
  function Below<D>(nodes: seq<string>, es: seq<Edge<D>>, n: nat): seq<Edge<D>> {
    if es == [] then []
    else (if Low(nodes, es[0]) < n then [Canon(nodes, es[0])] else []) + Below(nodes, es[1..], n)
  }

  predicate EndpointsIn<D>(nodes: seq<string>, es: seq<Edge<D>>) {
    forall i :: 0 <= i < |es| ==> es[i].u in nodes && es[i].v in nodes
  }

  function Pair<D>(e: Edge<D>): set<string> { {e.u, e.v} }

  /** The unordered endpoint pairs of the edges. */
  function Pairs<D>(es: seq<Edge<D>>): seq<set<string>> {
    Map(es, (e: Edge<D>) => Pair(e))
  }

  // ---------------------------------------------------------------------------

  lemma {:induction false} BelowStep<D>(nodes: seq<string>, es: seq<Edge<D>>, k: nat)
    ensures multiset(Below(nodes, es, k + 1)) == multiset(Below(nodes, es, k)) + multiset(Row(nodes, es, k))
  {
    if es != [] {
      BelowStep(nodes, es[1..], k);
    }
  }

  lemma {:induction false} RowsBelow<D>(nodes: seq<string>, es: seq<Edge<D>>, n: nat)
    ensures multiset(Rows(nodes, es, n)) == multiset(Below(nodes, es, n))
  {
    if n == 0 {
      BelowNone(nodes, es);
    } else {
      var m := n - 1;
      RowsBelow(nodes, es, m);
      BelowStep(nodes, es, m);
      RowsUnfold(nodes, es, m);
    }
  }

  lemma RowsUnfold<D>(nodes: seq<string>, es: seq<Edge<D>>, m: nat)
    ensures multiset(Rows(nodes, es, m + 1)) == multiset(Rows(nodes, es, m)) + multiset(Row(nodes, es, m))
  {
    assert Rows(nodes, es, m + 1) == Rows(nodes, es, m) + Row(nodes, es, m);
  }

  lemma {:induction false} BelowNone<D>(nodes: seq<string>, es: seq<Edge<D>>)
    ensures Below(nodes, es, 0) == []
  {
    if es != [] {
      BelowNone(nodes, es[1..]);
    }
  }

  lemma {:induction false} BelowAll<D>(nodes: seq<string>, es: seq<Edge<D>>)
    requires EndpointsIn(nodes, es)
    ensures Below(nodes, es, |nodes|) == CanonAll(nodes, es)
  {
    if es != [] {
      BelowAll(nodes, es[1..]);
    }
  }

  lemma {:induction false} CanonAllFacts<D>(nodes: seq<string>, es: seq<Edge<D>>)
    ensures |CanonAll(nodes, es)| == |es|
    ensures forall i :: 0 <= i < |es| ==> CanonAll(nodes, es)[i] == Canon(nodes, es[i])
  {
    if es != [] {
      CanonAllFacts(nodes, es[1..]);
    }
  }

  /** Reporting an edge from either end keeps its endpoints and its data. */
  lemma CanonPair<D>(nodes: seq<string>, e: Edge<D>)
    ensures Pair(Canon(nodes, e)) == Pair(e) && Canon(nodes, e).data == e.data
    ensures IndexOf(nodes, Canon(nodes, e).u) <= IndexOf(nodes, Canon(nodes, e).v)
    ensures IndexOf(nodes, Canon(nodes, e).u) == Low(nodes, e)
  {
  }

  /** The view reports every edge exactly once (as a permutation of the edges),
      from its earlier endpoint, with its data. */
  lemma EdgeViewFacts<D>(nodes: seq<string>, es: seq<Edge<D>>)
    requires EndpointsIn(nodes, es)
    ensures multiset(EdgeView(nodes, es)) == multiset(CanonAll(nodes, es))
    ensures |EdgeView(nodes, es)| == |es|
    ensures forall i :: 0 <= i < |es| ==> Canon(nodes, es[i]) in EdgeView(nodes, es)
    ensures forall x :: x in EdgeView(nodes, es) ==> exists i :: 0 <= i < |es| && x == Canon(nodes, es[i])
  {
    RowsBelow(nodes, es, |nodes|);
    BelowAll(nodes, es);
    CanonAllFacts(nodes, es);
    ViewMembers(nodes, es, EdgeView(nodes, es), CanonAll(nodes, es));
  }

  /** A permutation of the reported edges holds exactly the reported edges. */
  lemma ViewMembers<D>(nodes: seq<string>, es: seq<Edge<D>>, view: seq<Edge<D>>, all: seq<Edge<D>>)
    requires multiset(view) == multiset(all)
    requires |all| == |es| && forall i :: 0 <= i < |es| ==> all[i] == Canon(nodes, es[i])
    ensures |view| == |es|
    ensures forall i :: 0 <= i < |es| ==> Canon(nodes, es[i]) in view
    ensures forall x :: x in view ==> exists i :: 0 <= i < |es| && x == Canon(nodes, es[i])
  {
    SameMembers(view, all);
    forall x | x in view ensures exists i :: 0 <= i < |es| && x == Canon(nodes, es[i]) {
      var i :| 0 <= i < |all| && all[i] == x;
      assert x == Canon(nodes, es[i]);
    }
    forall i | 0 <= i < |es| ensures Canon(nodes, es[i]) in view {
      assert all[i] in all;
    }
  }

  lemma SameMembers<T>(s: seq<T>, t: seq<T>)
    requires multiset(s) == multiset(t)
    ensures |s| == |t|
    ensures forall x :: x in s <==> x in t
  {
    assert |s| == |multiset(s)|;
    forall x ensures x in s <==> x in t {
      assert x in s <==> x in multiset(s);
      assert x in t <==> x in multiset(t);
    }
  }

  /** At most one edge per unordered pair stays so in the view. */
  lemma EdgeViewSimple<D>(nodes: seq<string>, es: seq<Edge<D>>)
    requires EndpointsIn(nodes, es)
    requires Distinct(Pairs(es))
    ensures Distinct(Pairs(EdgeView(nodes, es)))
  {
    EdgeViewFacts(nodes, es);
    CanonAllFacts(nodes, es);
    var all := CanonAll(nodes, es);
    forall i | 0 <= i < |es| ensures Pairs(all)[i] == Pairs(es)[i] {
      CanonPair(nodes, es[i]);
    }
    assert Pairs(all) == Pairs(es);
    MapMultiset(EdgeView(nodes, es), all, (e: Edge<D>) => Pair(e));
    DistinctMultiset(Pairs(all), Pairs(EdgeView(nodes, es)));
  }

  /** Each row holds the edges whose earlier endpoint is node `k`. */
  lemma {:induction false} RowFacts<D>(nodes: seq<string>, es: seq<Edge<D>>, k: nat)
    ensures forall x :: x in Row(nodes, es, k) ==> IndexOf(nodes, x.u) == k
  {
    if es != [] {
      RowFacts(nodes, es[1..], k);
      CanonPair(nodes, es[0]);
    }
  }

  /** The view walks the nodes in order: the reporting endpoints never go back. */
  lemma {:induction false} RowsOrdered<D>(nodes: seq<string>, es: seq<Edge<D>>, n: nat)
    ensures forall x :: x in Rows(nodes, es, n) ==> IndexOf(nodes, x.u) < n
    ensures forall i, j :: 0 <= i < j < |Rows(nodes, es, n)| ==>
              IndexOf(nodes, Rows(nodes, es, n)[i].u) <= IndexOf(nodes, Rows(nodes, es, n)[j].u)
  {
    if n > 0 {
      RowsOrdered(nodes, es, n - 1);
      RowFacts(nodes, es, n - 1);
      var a := Rows(nodes, es, n - 1);
      var b := Row(nodes, es, n - 1);
      var r := a + b;
      forall i, j | 0 <= i < j < |r| ensures IndexOf(nodes, r[i].u) <= IndexOf(nodes, r[j].u) {
        if j >= |a| {
          assert r[j] == b[j - |a|] && r[j] in b;
          if i < |a| {
            assert r[i] == a[i] && r[i] in a;
          } else {
            assert r[i] == b[i - |a|] && r[i] in b;
          }
        }
      }
      forall x | x in r ensures IndexOf(nodes, x.u) < n {
        if x in b {
        }
      }
    }
  }

  /** Every reported edge starts at its earlier endpoint, and the view is
      ordered by that endpoint's position among the nodes. */
  lemma EdgeViewOrdered<D>(nodes: seq<string>, es: seq<Edge<D>>)
    requires EndpointsIn(nodes, es)
    ensures forall x :: x in EdgeView(nodes, es) ==> IndexOf(nodes, x.u) <= IndexOf(nodes, x.v)
    ensures forall i, j :: 0 <= i < j < |EdgeView(nodes, es)| ==>
              IndexOf(nodes, EdgeView(nodes, es)[i].u) <= IndexOf(nodes, EdgeView(nodes, es)[j].u)
  {
    RowsOrdered(nodes, es, |nodes|);
    EdgeViewFacts(nodes, es);
    forall x | x in EdgeView(nodes, es) ensures IndexOf(nodes, x.u) <= IndexOf(nodes, x.v) {
      var i :| 0 <= i < |es| && x == Canon(nodes, es[i]);
      CanonPair(nodes, es[i]);
    }
  }
}
