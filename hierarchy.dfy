/** The concept hierarchy (extractor.py, `_generate_hierarchy` and
    `_build_subtree`): a directed graph with an edge from each concept to every
    concept whose lower-cased text contains its own; the roots are the concepts
    with no incoming edge (at most five), and each root's tree follows the
    edges down.

    The model assumes concept texts differ after lower-casing, which the merge
    in `_extract_concepts` guarantees for well-formed NLP output
    (Concepts.ConceptsCaseDistinct). Two concepts differing only in case would
    contain each other, and `_build_subtree` would recurse between them without
    end. */
module Hierarchy {
  import opened Util
  import opened Text
  import opened Concepts

  /** `{'concept': ..., 'children': [...]}` */
  datatype Tree = Node(concept: string, children: seq<Tree>)

  /** `{'roots': [...], 'tree': {root: subtree, ...}}`; the tree is listed in
      the order of the roots. */
  datatype HierarchyResult = Hierarchy(roots: seq<string>, tree: seq<(string, seq<Tree>)>)

  /** The texts are pairwise different after lower-casing. */
  predicate LowerDistinct(ts: seq<string>) {
    forall a, b :: 0 <= a < b < |ts| ==> Lower(ts[a]) != Lower(ts[b])
  }

  /** `ts[a].lower() in ts[b].lower()` */
  predicate Contains(ts: seq<string>, a: nat, b: nat)
    requires a < |ts| && b < |ts|
  {
    IsSubstring(Lower(ts[a]), Lower(ts[b]))
  }

  /** The concepts whose lower-cased text strictly contains `u`'s, among the
      first `m`, in concept order: `u`'s successors. */
  function Supers(ts: seq<string>, u: string, m: nat): (r: seq<string>)
    requires m <= |ts|
    ensures forall x :: x in r ==> x in ts && x != u && IsSubstring(Lower(u), Lower(x))
  {
    if m == 0 then []
    else
      var v := ts[m - 1];
      Supers(ts, u, m - 1) + (if v != u && IsSubstring(Lower(u), Lower(v)) then [v] else [])
  }

  /** `adj` is the successor dictionary of the graph over these nodes. */
  ghost predicate Adjacency(ts: seq<string>, adj: map<string, seq<string>>) {
    && (forall v :: v in adj <==> v in ts)
    && (forall v :: v in ts ==> adj[v] == Supers(ts, v, |ts|))
  }

  // ---------------------------------------------------------------------------
  // The graph as the double loop builds it.

  /** The pair `a, b` was visited before step `(i, j)` of the double loop
      over the concepts; an edge is added the first time a pair is visited. */
  predicate Seen(a: nat, b: nat, i: nat, j: nat) {
    var lo := Min(a, b);
    var hi := if a < b then b else a;
    lo < i || (lo == i && hi < j)
  }

  predicate SeenEdge(ts: seq<string>, a: nat, b: nat, i: nat, j: nat)
    requires a < |ts| && b < |ts|
  {
    b != a && Contains(ts, a, b) && Seen(a, b, i, j)
  }

  /** `G.successors(ts[a])` before step `(i, j)`, restricted to the first `m`
      nodes. */
  function SuccUpTo(ts: seq<string>, a: nat, i: nat, j: nat, m: nat): seq<string>
    requires a < |ts| && m <= |ts|
  {
    if m == 0 then []
    else SuccUpTo(ts, a, i, j, m - 1) + (if SeenEdge(ts, a, m - 1, i, j) then [ts[m - 1]] else [])
  }

  /** The other end of the pair visited at step `(i, j)`. */
  function Partner(a: nat, i: nat, j: nat): nat { if a == i then j else i }

  /** Step `(i, j)` adds an edge out of `a`. */
  predicate NewFor(ts: seq<string>, a: nat, i: nat, j: nat)
    requires a < |ts| && i < |ts| && j < |ts|
  {
    i < j && (a == i || a == j) && Contains(ts, a, Partner(a, i, j))
  }

  /** `G = nx.DiGraph()`, one node per concept, then the double loop adding
      `contains` edges; `succ[a]` lists the successors of `concepts[a]` in
      insertion order. */
  method BuildGraph(concepts: seq<Concept>) returns (adj: map<string, seq<string>>)
    requires LowerDistinct(Texts(concepts))
    ensures Adjacency(Texts(concepts), adj)
  {
    var succ := AddEdges(concepts);
    adj := map a | 0 <= a < |concepts| :: concepts[a].text := succ[a];
    TextsFacts(concepts);
    forall v | v in Texts(concepts) ensures v in adj && adj[v] == Supers(Texts(concepts), v, |concepts|) {
      var a :| 0 <= a < |concepts| && Texts(concepts)[a] == v;
    }
  }

  /** The double loop; `succ[a]` lists the successors of `concepts[a]`. */
  method AddEdges(concepts: seq<Concept>) returns (succ: seq<seq<string>>)
    requires LowerDistinct(Texts(concepts))
    ensures |succ| == |concepts|
    ensures forall a :: 0 <= a < |concepts| ==> succ[a] == Supers(Texts(concepts), concepts[a].text, |concepts|)
  {
    ghost var ts := Texts(concepts);
    TextsFacts(concepts);
    var n := |concepts|;
    succ := seq(n, _ => []);
    forall a | 0 <= a < n ensures succ[a] == SuccUpTo(ts, a, 0, 0, n) {
      SuccNone(ts, a, n);
    }
    for i := 0 to n
      invariant |succ| == n
      invariant forall a :: 0 <= a < n ==> succ[a] == SuccUpTo(ts, a, i, 0, n)
    {
      for j := 0 to n
        invariant |succ| == n
        invariant forall a :: 0 <= a < n ==> succ[a] == SuccUpTo(ts, a, i, j, n)
      {
        ghost var before := succ;
        var text1 := concepts[i].text;
        var text2 := concepts[j].text;
        if text1 != text2 {
          if IsSubstring(Lower(text1), Lower(text2)) {
            if text2 !in succ[i] {
              succ := succ[i := succ[i] + [text2]];
            }
          } else if IsSubstring(Lower(text2), Lower(text1)) {
            if text1 !in succ[j] {
              succ := succ[j := succ[j] + [text1]];
            }
          }
        }
        forall a | 0 <= a < n ensures succ[a] == SuccUpTo(ts, a, i, j + 1, n) {
          GraphStep(ts, a, i, j, before[a], succ[a]);
        }
      }
      forall a | 0 <= a < n ensures succ[a] == SuccUpTo(ts, a, i + 1, 0, n) {
        SuccRowEnd(ts, a, i, n);
      }
    }
    forall a | 0 <= a < n ensures succ[a] == Supers(ts, concepts[a].text, n) {
      OnlyAt(ts, a);
      SuccAll(ts, a, n);
    }
  }

  /** One step of the double loop, seen from node `a`. */
  lemma GraphStep(ts: seq<string>, a: nat, i: nat, j: nat, before: seq<string>, after: seq<string>)
    requires LowerDistinct(ts) && a < |ts| && i < |ts| && j < |ts|
    requires before == SuccUpTo(ts, a, i, j, |ts|)
    requires after == if ts[i] == ts[j] then before
                      else if Contains(ts, i, j) then
                        (if a == i && ts[j] !in before then before + [ts[j]] else before)
                      else if Contains(ts, j, i) then
                        (if a == j && ts[i] !in before then before + [ts[i]] else before)
                      else before
    ensures after == SuccUpTo(ts, a, i, j + 1, |ts|)
  {
    var n := |ts|;
    SuccStep(ts, a, i, j, n);
    if i != j {
      assert ts[i] != ts[j] by {
        if i < j { assert Lower(ts[i]) != Lower(ts[j]); } else { assert Lower(ts[j]) != Lower(ts[i]); }
      }
      ContainsAntisymmetric(ts, i, j);
      if i < j {
        if a == i && Contains(ts, i, j) {
          SuccAbsent(ts, a, i, j, j, n);
        } else if a == j && Contains(ts, j, i) {
          SuccAbsent(ts, a, i, j, i, n);
        }
      } else {
        if a == i && Contains(ts, i, j) {
          assert SeenEdge(ts, a, j, i, j);
          SuccPresent(ts, a, i, j, j, n);
        } else if a == j && !Contains(ts, i, j) && Contains(ts, j, i) {
          assert SeenEdge(ts, a, i, i, j);
          SuccPresent(ts, a, i, j, i, n);
        }
      }
    }
  }

  lemma ContainsAntisymmetric(ts: seq<string>, a: nat, b: nat)
    requires LowerDistinct(ts) && a < |ts| && b < |ts| && a != b
    ensures !(Contains(ts, a, b) && Contains(ts, b, a))
  {
    assert Lower(ts[a]) != Lower(ts[b]) by {
      if a > b {
        assert Lower(ts[b]) != Lower(ts[a]);
      }
    }
    if Contains(ts, a, b) && Contains(ts, b, a) {
      var x, y := Lower(ts[a]), Lower(ts[b]);
      SubstringLength(x, y);
      SubstringLength(y, x);
    }
  }

  /** Visiting the pair at step `(i, j)` appends the partner when the edge is new. */
  lemma {:induction false} SuccStep(ts: seq<string>, a: nat, i: nat, j: nat, m: nat)
    requires LowerDistinct(ts) && a < |ts| && i < |ts| && j < |ts| && m <= |ts|
    ensures SuccUpTo(ts, a, i, j + 1, m)
            == SuccUpTo(ts, a, i, j, m)
               + (if NewFor(ts, a, i, j) && Partner(a, i, j) < m then [ts[Partner(a, i, j)]] else [])
  {
    if m > 0 {
      SuccStep(ts, a, i, j, m - 1);
      var b := m - 1;
      var p := Partner(a, i, j);
      if NewFor(ts, a, i, j) && p < b {
        assert !SeenEdge(ts, a, b, i, j) && !SeenEdge(ts, a, b, i, j + 1);
      } else if NewFor(ts, a, i, j) && p == b {
        assert !SeenEdge(ts, a, b, i, j) && SeenEdge(ts, a, b, i, j + 1);
      } else {
        if b != a && Contains(ts, a, b) {
          // {a, b} == {i, j} would make the step new with partner `b`.
          assert !(Min(a, b) == i && (if a < b then b else a) == j);
          assert Seen(a, b, i, j + 1) == Seen(a, b, i, j);
        }
      }
    }
  }

  lemma {:induction false} SuccAbsent(ts: seq<string>, a: nat, i: nat, j: nat, b: nat, m: nat)
    requires LowerDistinct(ts) && a < |ts| && b < |ts| && m <= |ts|
    requires !SeenEdge(ts, a, b, i, j)
    ensures ts[b] !in SuccUpTo(ts, a, i, j, m)
  {
    if m > 0 {
      SuccAbsent(ts, a, i, j, b, m - 1);
      if m - 1 != b {
        assert ts[m - 1] != ts[b] by {
          if m - 1 < b { assert Lower(ts[m - 1]) != Lower(ts[b]); } else { assert Lower(ts[b]) != Lower(ts[m - 1]); }
        }
      }
    }
  }

  lemma {:induction false} SuccPresent(ts: seq<string>, a: nat, i: nat, j: nat, b: nat, m: nat)
    requires a < |ts| && b < m <= |ts|
    requires SeenEdge(ts, a, b, i, j)
    ensures ts[b] in SuccUpTo(ts, a, i, j, m)
  {
    if b < m - 1 {
      SuccPresent(ts, a, i, j, b, m - 1);
    }
  }

  lemma {:induction false} SuccNone(ts: seq<string>, a: nat, m: nat)
    requires a < |ts| && m <= |ts|
    ensures SuccUpTo(ts, a, 0, 0, m) == []
  {
    if m > 0 {
      SuccNone(ts, a, m - 1);
    }
  }

  lemma {:induction false} SuccRowEnd(ts: seq<string>, a: nat, i: nat, m: nat)
    requires a < |ts| && m <= |ts|
    ensures SuccUpTo(ts, a, i, |ts|, m) == SuccUpTo(ts, a, i + 1, 0, m)
  {
    if m > 0 {
      SuccRowEnd(ts, a, i, m - 1);
    }
  }

  lemma {:induction false} SuccAll(ts: seq<string>, a: nat, m: nat)
    requires a < |ts| && m <= |ts|
    requires forall b :: 0 <= b < |ts| && b != a ==> ts[b] != ts[a]
    ensures SuccUpTo(ts, a, |ts|, 0, m) == Supers(ts, ts[a], m)
  {
    if m > 0 {
      SuccAll(ts, a, m - 1);
    }
  }

  /** With texts distinct up to case, a text occurs at one index only. */
  lemma OnlyAt(ts: seq<string>, a: nat)
    requires LowerDistinct(ts) && a < |ts|
    ensures forall b :: 0 <= b < |ts| && b != a ==> ts[b] != ts[a]
  {
    forall b | 0 <= b < |ts| && b != a ensures ts[b] != ts[a] {
      if b < a { assert Lower(ts[b]) != Lower(ts[a]); } else { assert Lower(ts[a]) != Lower(ts[b]); }
    }
  }

  // ---------------------------------------------------------------------------
  // The successors in closed form.

  /** `x` is a successor of `u` exactly when it is another concept whose
      lower-cased text contains `u`'s; no successor is listed twice, and the
      successors keep the concept order. */
  lemma SupersFacts(ts: seq<string>, u: string, m: nat)
    requires m <= |ts| && Distinct(ts)
    ensures forall x :: x in Supers(ts, u, m) <==> x in ts[..m] && x != u && IsSubstring(Lower(u), Lower(x))
    ensures Distinct(Supers(ts, u, m))
    ensures forall p, q :: 0 <= p < q < |Supers(ts, u, m)| ==>
              IndexIn(ts, Supers(ts, u, m)[p]) < IndexIn(ts, Supers(ts, u, m)[q])
  {
    SupersMembers(ts, u, m);
    SupersOrdered(ts, u, m);
  }

  lemma {:induction false} SupersMembers(ts: seq<string>, u: string, m: nat)
    requires m <= |ts|
    ensures forall x :: x in Supers(ts, u, m) <==> x in ts[..m] && x != u && IsSubstring(Lower(u), Lower(x))
  {
    if m > 0 {
      SupersMembers(ts, u, m - 1);
      assert ts[..m] == ts[..m - 1] + [ts[m - 1]];
    }
  }

  /** The successors come in concept order, all from the first `m` concepts. */
  lemma {:induction false} SupersOrdered(ts: seq<string>, u: string, m: nat)
    requires m <= |ts| && Distinct(ts)
    ensures forall x :: x in Supers(ts, u, m) ==> IndexIn(ts, x) < m
    ensures forall p, q :: 0 <= p < q < |Supers(ts, u, m)| ==>
              IndexIn(ts, Supers(ts, u, m)[p]) < IndexIn(ts, Supers(ts, u, m)[q])
  {
    if m > 0 {
      SupersOrdered(ts, u, m - 1);
      IndexInAt(ts, m - 1);
      var r0 := Supers(ts, u, m - 1);
      var r := Supers(ts, u, m);
      var v := ts[m - 1];
      if v != u && IsSubstring(Lower(u), Lower(v)) {
        assert r == r0 + [v];
        forall p, q | 0 <= p < q < |r| ensures IndexIn(ts, r[p]) < IndexIn(ts, r[q]) {
          assert r[p] == r0[p] && r[p] in r0;
          if q < |r0| {
            assert r[q] == r0[q];
          } else {
            assert r[q] == v;
          }
        }
      } else {
        assert r == r0;
      }
    }
  }

  /** Position of `x` in `ts`, or `|ts|`. */
  function IndexIn(ts: seq<string>, x: string): nat {
    if ts == [] then 0 else if ts[0] == x then 0 else 1 + IndexIn(ts[1..], x)
  }

  lemma {:induction false} IndexInAt(ts: seq<string>, k: nat)
    requires Distinct(ts) && k < |ts|
    ensures IndexIn(ts, ts[k]) == k
  {
    if k > 0 {
      assert ts[0] != ts[k];
      assert ts[1..][k - 1] == ts[k];
      IndexInAt(ts[1..], k - 1);
    }
  }

  /** Distinct lower-cased texts are distinct texts. */
  lemma LowerDistinctDistinct(ts: seq<string>)
    requires LowerDistinct(ts)
    ensures Distinct(ts)
  {
    forall a, b | 0 <= a < b < |ts| ensures ts[a] != ts[b] {
      assert Lower(ts[a]) != Lower(ts[b]);
    }
  }

  lemma CaseDistinctTexts(cs: seq<Concept>)
    requires CaseDistinct(cs)
    ensures LowerDistinct(Texts(cs))
  {
    TextsFacts(cs);
    forall a, b | 0 <= a < b < |cs| ensures Lower(Texts(cs)[a]) != Lower(Texts(cs)[b]) {
      assert Map(cs, LowerText)[a] != Map(cs, LowerText)[b];
    }
  }

  // ---------------------------------------------------------------------------
  // _build_subtree

  /** The longest lower-cased text. */
  function MaxLen(ts: seq<string>): nat {
    if ts == [] then 0
    else
      var m := MaxLen(ts[..|ts| - 1]);
      if m < |Lower(ts[|ts| - 1])| then |Lower(ts[|ts| - 1])| else m
  }

  lemma {:induction false} MaxLenFacts(ts: seq<string>, x: string)
    requires x in ts
    ensures |Lower(x)| <= MaxLen(ts)
  {
    if x != ts[|ts| - 1] {
      assert x in ts[..|ts| - 1];
      MaxLenFacts(ts[..|ts| - 1], x);
    }
  }

  /** A successor's lower-cased text is strictly longer: the recursion ends. */
  lemma LongerChild(ts: seq<string>, u: string, x: string)
    requires LowerDistinct(ts) && u in ts && x in ts && x != u && IsSubstring(Lower(u), Lower(x))
    ensures |Lower(u)| < |Lower(x)| <= MaxLen(ts)
  {
    var a :| 0 <= a < |ts| && ts[a] == u;
    var b :| 0 <= b < |ts| && ts[b] == x;
    assert Lower(u) != Lower(x) by {
      if a < b { assert Lower(ts[a]) != Lower(ts[b]); } else { assert Lower(ts[b]) != Lower(ts[a]); }
    }
    SubstringLength(Lower(u), Lower(x));
    MaxLenFacts(ts, x);
  }

  predicate SupersOf(ts: seq<string>, u: string, ks: seq<string>) {
    forall k :: k in ks ==> k in ts && k != u && IsSubstring(Lower(u), Lower(k))
  }

  /** `_build_subtree(G, u)` */
  function Subtree(ts: seq<string>, u: string): seq<Tree>
    requires LowerDistinct(ts) && u in ts
    decreases MaxLen(ts) - |Lower(u)|, 1, 0
  {
    MaxLenFacts(ts, u);
    Forest(ts, u, Supers(ts, u, |ts|))
  }

  /** One `{'concept': child, 'children': ...}` per child, in order. */
  function Forest(ts: seq<string>, u: string, ks: seq<string>): seq<Tree>
    requires LowerDistinct(ts) && u in ts && SupersOf(ts, u, ks)
    decreases MaxLen(ts) - |Lower(u)|, 0, |ks|
  {
    if ks == [] then []
    else
      var k := ks[|ks| - 1];
      LongerChild(ts, u, k);
      Forest(ts, u, ks[..|ks| - 1]) + [Node(k, Subtree(ts, k))]
  }

  method BuildSubtree(adj: map<string, seq<string>>, ghost ts: seq<string>, node: string) returns (subtree: seq<Tree>)
    requires LowerDistinct(ts) && node in ts && Adjacency(ts, adj)
    ensures subtree == Subtree(ts, node)
    decreases MaxLen(ts) - |Lower(node)|
  {
    MaxLenFacts(ts, node);
    var children := adj[node];
    assert SupersOf(ts, node, children);
    if children == [] {
      return [];
    }
    subtree := [];
    for k := 0 to |children|
      invariant subtree == Forest(ts, node, children[..k])
    {
      var child := children[k];
      assert child in children;
      LongerChild(ts, node, child);
      var grand := BuildSubtree(adj, ts, child);
      ForestSnoc(ts, node, children, k);
      subtree := subtree + [Node(child, grand)];
    }
    assert children[..|children|] == children;
  }

  lemma ForestSnoc(ts: seq<string>, u: string, ks: seq<string>, k: nat)
    requires LowerDistinct(ts) && u in ts && SupersOf(ts, u, ks) && k < |ks|
    ensures SupersOf(ts, u, ks[..k]) && SupersOf(ts, u, ks[..k + 1]) && ks[k] in ts
    ensures Forest(ts, u, ks[..k + 1]) == Forest(ts, u, ks[..k]) + [Node(ks[k], Subtree(ts, ks[k]))]
  {
    assert ks[..k + 1][..k] == ks[..k];
    assert ks[k] in ks;
  }

  // ---------------------------------------------------------------------------
  // Roots and the whole hierarchy.

  /** No other concept's lower-cased text occurs in `v`'s. */
  predicate Minimal(ts: seq<string>, v: string) {
    forall u :: u in ts && u != v ==> !IsSubstring(Lower(u), Lower(v))
  }

  /** `G.in_degree(v) == 0` */
  predicate InDegreeZero(adj: map<string, seq<string>>, v: string) {
    forall u :: u in adj ==> v !in adj[u]
  }

  /** `[n for n in G.nodes() if G.in_degree(n) == 0]` over the first `m` nodes. */
  function Candidates(ts: seq<string>, m: nat): seq<string>
    requires m <= |ts|
  {
    if m == 0 then [] else Candidates(ts, m - 1) + (if Minimal(ts, ts[m - 1]) then [ts[m - 1]] else [])
  }

  /** `hierarchy['roots']`: the first five concepts without an incoming edge,
      or, when there is none, the five most important concepts (the nodes are
      the concepts, in order, with their importance). */
  function RootsOf(cs: seq<Concept>): seq<string> {
    var ts := Texts(cs);
    var c := Candidates(ts, |ts|);
    Take(if c == [] then Take(Texts(SortDesc(cs, Importance)), 5) else c, 5)
  }

  /** `hierarchy['tree']`, one entry per root in root order. */
  function Trees(ts: seq<string>, rs: seq<string>): seq<(string, seq<Tree>)>
    requires LowerDistinct(ts) && forall r :: r in rs ==> r in ts
  {
    if rs == [] then []
    else
      var r := rs[|rs| - 1];
      Trees(ts, rs[..|rs| - 1]) + [(r, Subtree(ts, r))]
  }

  function HierarchyOf(cs: seq<Concept>): HierarchyResult
    requires LowerDistinct(Texts(cs))
  {
    var rs := RootsOf(cs);
    RootsInTexts(cs);
    Hierarchy(rs, Trees(Texts(cs), rs))
  }

  method GenerateHierarchy(concepts: seq<Concept>) returns (h: HierarchyResult)
    requires LowerDistinct(Texts(concepts))
    ensures h == HierarchyOf(concepts)
  {
    var adj := BuildGraph(concepts);
    var candidates := RootCandidates(Texts(concepts), adj);
    ZeroInDegreeMinimal(Texts(concepts), adj);
    if candidates == [] {
      candidates := Take(Texts(SortDesc(concepts, Importance)), 5);
    }
    var roots := Take(candidates, 5);
    RootsInTexts(concepts);
    var tree := SubtreeList(adj, Texts(concepts), roots);
    h := Hierarchy(roots, tree);
  }

  /** The nodes with no incoming edge, in node order. */
  method RootCandidates(ts: seq<string>, adj: map<string, seq<string>>) returns (candidates: seq<string>)
    ensures candidates == ZeroInDegree(adj, ts, |ts|)
  {
    candidates := [];
    for a := 0 to |ts|
      invariant candidates == ZeroInDegree(adj, ts, a)
    {
      var n := ts[a];
      if InDegreeZero(adj, n) {
        candidates := candidates + [n];
      }
    }
  }

  /** The first `m` nodes of in-degree 0, in node order. */
  function ZeroInDegree(adj: map<string, seq<string>>, ts: seq<string>, m: nat): seq<string>
    requires m <= |ts|
  {
    if m == 0 then [] else ZeroInDegree(adj, ts, m - 1) + (if InDegreeZero(adj, ts[m - 1]) then [ts[m - 1]] else [])
  }

  /** On the containment graph, the nodes of in-degree 0 are the concepts
      no other one is contained in. */
  lemma ZeroInDegreeMinimal(ts: seq<string>, adj: map<string, seq<string>>)
    requires LowerDistinct(ts) && Adjacency(ts, adj)
    ensures ZeroInDegree(adj, ts, |ts|) == Candidates(ts, |ts|)
  {
    forall v | v in ts ensures InDegreeZero(adj, v) <==> Minimal(ts, v) {
      InDegreeMinimal(ts, adj, v);
    }
    SameTest(ts, adj, |ts|);
  }

  /** Filtering by two tests that agree on every node gives one list. */
  lemma {:induction false} SameTest(ts: seq<string>, adj: map<string, seq<string>>, m: nat)
    requires m <= |ts|
    requires forall v :: v in ts ==> (InDegreeZero(adj, v) <==> Minimal(ts, v))
    ensures ZeroInDegree(adj, ts, m) == Candidates(ts, m)
  {
    if m > 0 {
      SameTest(ts, adj, m - 1);
      assert ts[m - 1] in ts;
    }
  }

  /** `{root: self._build_subtree(G, root) for root in roots}` */
  method SubtreeList(adj: map<string, seq<string>>, ghost ts: seq<string>, roots: seq<string>)
    returns (tree: seq<(string, seq<Tree>)>)
    requires LowerDistinct(ts) && Adjacency(ts, adj) && forall r :: r in roots ==> r in ts
    ensures tree == Trees(ts, roots)
  {
    tree := [];
    for k := 0 to |roots|
      invariant tree == Trees(ts, roots[..k])
    {
      assert roots[..k + 1][..k] == roots[..k];
      assert roots[k] in roots;
      var sub := BuildSubtree(adj, ts, roots[k]);
      tree := tree + [(roots[k], sub)];
    }
    assert roots[..|roots|] == roots;
  }

  /** The in-degree test is the containment test. */
  lemma InDegreeMinimal(ts: seq<string>, adj: map<string, seq<string>>, v: string)
    requires LowerDistinct(ts) && Adjacency(ts, adj) && v in ts
    ensures InDegreeZero(adj, v) <==> Minimal(ts, v)
  {
    LowerDistinctDistinct(ts);
    assert ts[..|ts|] == ts;
    forall u | u in ts ensures v in adj[u] <==> (v != u && IsSubstring(Lower(u), Lower(v))) {
      SupersFacts(ts, u, |ts|);
    }
  }

  lemma {:induction false} CandidatesFacts(ts: seq<string>, m: nat)
    requires m <= |ts|
    ensures forall x :: x in Candidates(ts, m) <==> x in ts[..m] && Minimal(ts, x)
    ensures Distinct(ts) ==> Distinct(Candidates(ts, m))
  {
    if m > 0 {
      CandidatesFacts(ts, m - 1);
      assert ts[..m] == ts[..m - 1] + [ts[m - 1]];
      var c := Candidates(ts, m - 1);
      if Distinct(ts) && Minimal(ts, ts[m - 1]) {
        forall x | x in c ensures x != ts[m - 1] {
          var k :| 0 <= k < m - 1 && ts[..m - 1][k] == x;
        }
        var r := c + [ts[m - 1]];
        forall p, q | 0 <= p < q < |r| ensures r[p] != r[q] {
          if q == |c| {
            assert r[p] in c;
          }
        }
      }
    }
  }

  lemma RootsInTexts(cs: seq<Concept>)
    ensures forall r :: r in RootsOf(cs) ==> r in Texts(cs)
  {
    var ts := Texts(cs);
    CandidatesFacts(ts, |ts|);
    assert ts[..|ts|] == ts;
    SortDescFacts(cs, Importance);
    var sorted := SortDesc(cs, Importance);
    TextsFacts(cs);
    TextsFacts(sorted);
    forall r | r in Texts(sorted) ensures r in ts {
      var k :| 0 <= k < |sorted| && Texts(sorted)[k] == r;
      assert sorted[k] in multiset(cs);
      var j :| 0 <= j < |cs| && cs[j] == sorted[k];
      assert ts[j] == r;
    }
  }

  /** The index of the first concept whose lower-cased text is shortest. */
  function Shortest(ts: seq<string>): (r: nat)
    requires ts != []
    ensures r < |ts|
  {
    if |ts| == 1 then 0
    else
      var k := Shortest(ts[..|ts| - 1]);
      if |Lower(ts[|ts| - 1])| < |Lower(ts[k])| then |ts| - 1 else k
  }

  lemma {:induction false} ShortestFacts(ts: seq<string>)
    requires ts != []
    ensures forall q :: 0 <= q < |ts| ==> |Lower(ts[Shortest(ts)])| <= |Lower(ts[q])|
  {
    if |ts| > 1 {
      ShortestFacts(ts[..|ts| - 1]);
    }
  }

  /** The concept with the shortest lower-cased text contains no other. */
  lemma SomeMinimal(ts: seq<string>)
    requires LowerDistinct(ts) && ts != []
    ensures exists v :: v in ts && Minimal(ts, v)
  {
    var b := Shortest(ts);
    ShortestFacts(ts);
    var v := ts[b];
    forall u | u in ts && u != v ensures !IsSubstring(Lower(u), Lower(v)) {
      var q :| 0 <= q < |ts| && ts[q] == u;
      assert Lower(u) != Lower(v) by {
        if q < b { assert Lower(ts[q]) != Lower(ts[b]); } else { assert Lower(ts[b]) != Lower(ts[q]); }
      }
      SubstringBound(Lower(u), Lower(v));
    }
    assert v in ts && Minimal(ts, v);
  }

  lemma SubstringBound(a: string, b: string)
    ensures IsSubstring(a, b) ==> |a| <= |b| && (|a| == |b| ==> a == b)
  {
    if IsSubstring(a, b) {
      SubstringLength(a, b);
    }
  }

  /** At most five roots, each once; every root contains no other concept,
      and every such concept is a root unless five were already taken; the
      fallback to the most important concepts is taken only for an empty
      concept list, so there is a root whenever there is a concept. */
  lemma RootsFacts(cs: seq<Concept>)
    requires LowerDistinct(Texts(cs))
    ensures |RootsOf(cs)| <= 5 && Distinct(RootsOf(cs))
    ensures forall r :: r in RootsOf(cs) ==> r in Texts(cs) && Minimal(Texts(cs), r)
    ensures forall v :: v in Texts(cs) && Minimal(Texts(cs), v) && |RootsOf(cs)| < 5 ==> v in RootsOf(cs)
    ensures Candidates(Texts(cs), |cs|) == [] <==> cs == []
    ensures |cs| > 0 <==> |RootsOf(cs)| > 0
  {
    var ts := Texts(cs);
    LowerDistinctDistinct(ts);
    CandidatesFacts(ts, |ts|);
    assert ts[..|ts|] == ts;
    var c := Candidates(ts, |ts|);
    if cs != [] {
      SomeMinimal(ts);
      var v :| v in ts && Minimal(ts, v);
      assert v in c;
    }
    var rs := RootsOf(cs);
    assert rs == Take(c, 5);
    forall p, q | 0 <= p < q < |rs| ensures rs[p] != rs[q] {
      assert rs[p] == c[p] && rs[q] == c[q];
    }
    forall r | r in rs ensures r in c {
      var k :| 0 <= k < |rs| && rs[k] == r;
      assert c[k] == r;
    }
  }

  // ---------------------------------------------------------------------------
  // What a subtree holds.

  function TreeLabels(t: Tree): seq<string>
    decreases t
  {
    [t.concept] + ForestLabels(t.children)
  }

  /** Every concept appearing anywhere in the forest. */
  function ForestLabels(f: seq<Tree>): seq<string>
    decreases f
  {
    if f == [] then [] else ForestLabels(f[..|f| - 1]) + TreeLabels(f[|f| - 1])
  }

  /** The concepts of the top level of the forest. */
  function Heads(f: seq<Tree>): seq<string> {
    if f == [] then [] else Heads(f[..|f| - 1]) + [f[|f| - 1].concept]
  }

  lemma {:induction false} ForestHeads(ts: seq<string>, u: string, ks: seq<string>)
    requires LowerDistinct(ts) && u in ts && SupersOf(ts, u, ks)
    ensures Heads(Forest(ts, u, ks)) == ks
    decreases |ks|
  {
    if ks != [] {
      var init, k := ks[..|ks| - 1], ks[|ks| - 1];
      ForestLast(ts, u, ks);
      ForestHeads(ts, u, init);
      HeadsSnoc(Forest(ts, u, init), Node(k, Subtree(ts, k)));
      InitLast(ks);
    }
  }

  /** The last child's tree comes last. */
  lemma ForestLast(ts: seq<string>, u: string, ks: seq<string>)
    requires LowerDistinct(ts) && u in ts && SupersOf(ts, u, ks) && ks != []
    ensures SupersOf(ts, u, ks[..|ks| - 1]) && ks[|ks| - 1] in ts
    ensures Forest(ts, u, ks) == Forest(ts, u, ks[..|ks| - 1]) + [Node(ks[|ks| - 1], Subtree(ts, ks[|ks| - 1]))]
  {
    assert ks[|ks| - 1] in ks;
    assert forall k :: k in ks[..|ks| - 1] ==> k in ks;
  }

  lemma HeadsSnoc(f: seq<Tree>, t: Tree)
    ensures Heads(f + [t]) == Heads(f) + [t.concept]
  {
    assert (f + [t])[..|f|] == f;
  }

  /** The children of `u` are the concepts strictly containing it, each once,
      in concept order; `u` is a leaf exactly when no concept contains it. */
  lemma SubtreeChildren(ts: seq<string>, u: string)
    requires LowerDistinct(ts) && u in ts
    ensures Heads(Subtree(ts, u)) == Supers(ts, u, |ts|)
    ensures forall x :: x in Heads(Subtree(ts, u)) <==> x in ts && x != u && IsSubstring(Lower(u), Lower(x))
    ensures Distinct(Heads(Subtree(ts, u)))
    ensures Subtree(ts, u) == [] <==> forall x :: x in ts && x != u ==> !IsSubstring(Lower(u), Lower(x))
  {
    ForestHeads(ts, u, Supers(ts, u, |ts|));
    LowerDistinctDistinct(ts);
    SupersFacts(ts, u, |ts|);
    assert ts[..|ts|] == ts;
    var f := Subtree(ts, u);
    if f == [] {
      assert Heads(f) == [];
    } else {
      assert f[|f| - 1].concept in Heads(f);
    }
  }

  /** Every concept anywhere below `u` strictly contains `u`. */
  lemma {:induction false} SubtreeBelow(ts: seq<string>, u: string)
    requires LowerDistinct(ts) && u in ts
    ensures forall x :: x in ForestLabels(Subtree(ts, u)) ==>
              x in ts && x != u && IsSubstring(Lower(u), Lower(x)) && |Lower(u)| < |Lower(x)|
    decreases MaxLen(ts) - |Lower(u)|, 1, 0
  {
    MaxLenFacts(ts, u);
    ForestBelow(ts, u, Supers(ts, u, |ts|));
  }

  lemma {:induction false} ForestBelow(ts: seq<string>, u: string, ks: seq<string>)
    requires LowerDistinct(ts) && u in ts && SupersOf(ts, u, ks)
    ensures forall x :: x in ForestLabels(Forest(ts, u, ks)) ==>
              x in ts && x != u && IsSubstring(Lower(u), Lower(x)) && |Lower(u)| < |Lower(x)|
    decreases MaxLen(ts) - |Lower(u)|, 0, |ks|
  {
    if ks != [] {
      var init := ks[..|ks| - 1];
      var k := ks[|ks| - 1];
      assert k in ks;
      assert SupersOf(ts, u, init) by {
        forall y | y in init ensures y in ks {
        }
      }
      LongerChild(ts, u, k);
      ForestBelow(ts, u, init);
      SubtreeBelow(ts, k);
      var f := Forest(ts, u, ks);
      var t := Node(k, Subtree(ts, k));
      assert f == Forest(ts, u, init) + [t];
      assert f[..|f| - 1] == Forest(ts, u, init);
      assert ForestLabels(f) == ForestLabels(Forest(ts, u, init)) + TreeLabels(t);
      forall x | x in ForestLabels(Subtree(ts, k))
        ensures x in ts && x != u && IsSubstring(Lower(u), Lower(x)) && |Lower(u)| < |Lower(x)|
      {
        SubstringTransitive(Lower(u), Lower(k), Lower(x));
      }
    }
  }
}
