/** The graph `generate_knowledge_map` builds (mapper.py:43-63): an undirected
    `networkx.Graph` with one node per concept text and one edge per unordered
    pair of relationship endpoints. Adding a node or an edge a second time
    keeps its position and replaces its attributes; an edge whose endpoint is
    not yet a node adds that node, without attributes. */
module MapperGraph {
  import opened Util
  import opened Undirected

  /** A concept as the mapper reads it: every field but the text may be absent. */
  datatype InConcept = InConcept(text: string, ctype: Option<string>, importance: Option<real>, frequency: Option<nat>)

  /** A relationship as the mapper reads it. */
  datatype InRelationship = InRelationship(
    source: string, target: string, weight: Option<nat>, rtype: Option<string>, subtypes: Option<seq<string>>)

  /** The attributes `G.add_node` stores, with their defaults filled in. */
  datatype NodeAttr = NodeAttr(ctype: string, importance: real, frequency: nat)

  /** The attributes `G.add_edge` stores, with their defaults filled in. */
  datatype LinkData = LinkData(weight: nat, ltype: string, subtypes: seq<string>)

  type MapEdge = Edge<LinkData>

  /** The nodes in insertion order; `None` for a node only an edge created. */
  type Graph = seq<(string, Option<NodeAttr>)>

  function AttrOf(c: InConcept): NodeAttr {
    NodeAttr(Or(c.ctype, "concept"), Or(c.importance, 0.5), Or(c.frequency, 1))
  }

  function DataOf(r: InRelationship): LinkData {
    LinkData(Or(r.weight, 1), Or(r.rtype, "related"), Or(r.subtypes, []))
  }

  function Keys(g: Graph): (r: seq<string>)
    ensures |r| == |g|
  {
    if g == [] then [] else Keys(g[..|g| - 1]) + [g[|g| - 1].0]
  }

  function InTexts(cs: seq<InConcept>): (r: seq<string>)
    ensures |r| == |cs|
  {
    if cs == [] then [] else InTexts(cs[..|cs| - 1]) + [cs[|cs| - 1].text]
  }

  /** `G.add_node(text, **attrs)` */
  function SetNode(g: Graph, k: string, a: NodeAttr): Graph {
    var i := IndexOf(Keys(g), k);
    if i == |g| then g + [(k, Some(a))] else g[i := (k, Some(a))]
  }

  /** The side effect of `G.add_edge` on an endpoint. */
  function EnsureNode(g: Graph, k: string): Graph {
    if k in Keys(g) then g else g + [(k, None)]
  }

  function ConceptNodes(cs: seq<InConcept>): Graph {
    if cs == [] then [] else var c := cs[|cs| - 1]; SetNode(ConceptNodes(cs[..|cs| - 1]), c.text, AttrOf(c))
  }

  function EdgeNodes(g: Graph, rs: seq<InRelationship>): Graph {
    if rs == [] then g
    else var r := rs[|rs| - 1]; EnsureNode(EnsureNode(EdgeNodes(g, rs[..|rs| - 1]), r.source), r.target)
  }

  /** `G.nodes()` after both loops. */
  function GraphNodes(cs: seq<InConcept>, rs: seq<InRelationship>): Graph {
    EdgeNodes(ConceptNodes(cs), rs)
  }

  /** The position of the edge between this pair, or `|es|`. */
  function FindEdge(es: seq<MapEdge>, p: set<string>): (i: nat)
    ensures i <= |es|
    ensures i < |es| ==> Pair(es[i]) == p
    ensures i == |es| ==> forall k :: 0 <= k < |es| ==> Pair(es[k]) != p
  {
    if es == [] then 0 else if Pair(es[0]) == p then 0 else 1 + FindEdge(es[1..], p)
  }

  /** `G.add_edge(source, target, **data)`, edges in creation order. */
  function AddEdge(es: seq<MapEdge>, r: InRelationship): seq<MapEdge> {
    var i := FindEdge(es, {r.source, r.target});
    if i == |es| then es + [Edge(r.source, r.target, DataOf(r))]
    else es[i := Edge(es[i].u, es[i].v, DataOf(r))]
  }

  function EdgesOf(rs: seq<InRelationship>): seq<MapEdge> {
    if rs == [] then [] else AddEdge(EdgesOf(rs[..|rs| - 1]), rs[|rs| - 1])
  }

  /** Every node carries the attributes a concept gave it. */
  predicate Attributed(g: Graph) {
    forall i :: 0 <= i < |g| ==> g[i].1.Some?
  }

  /** Every endpoint is a concept text. */
  predicate EndpointsKnown(cs: seq<InConcept>, rs: seq<InRelationship>) {
    forall i :: 0 <= i < |rs| ==> rs[i].source in InTexts(cs) && rs[i].target in InTexts(cs)
  }

  /** The last concept with this text. */
  function LastWith(cs: seq<InConcept>, k: string): InConcept
    requires k in InTexts(cs)
  {
    var c := cs[|cs| - 1];
    if c.text == k then c else LastWith(cs[..|cs| - 1], k)
  }

  /** The last relationship between this pair. */
  function LastBetween(rs: seq<InRelationship>, p: set<string>): InRelationship
    requires exists i :: 0 <= i < |rs| && {rs[i].source, rs[i].target} == p
  {
    var r := rs[|rs| - 1];
    if {r.source, r.target} == p then r
    else
      var init := rs[..|rs| - 1];
      assert exists i :: 0 <= i < |init| && {init[i].source, init[i].target} == p by {
        var i :| 0 <= i < |rs| && {rs[i].source, rs[i].target} == p;
        assert i < |init| && init[i] == rs[i];
      }
      LastBetween(init, p)
  }

  function RelPairs(rs: seq<InRelationship>): seq<set<string>> {
    if rs == [] then [] else RelPairs(rs[..|rs| - 1]) + [{rs[|rs| - 1].source, rs[|rs| - 1].target}]
  }

  lemma {:induction false} RelPairsAt(rs: seq<InRelationship>)
    ensures |RelPairs(rs)| == |rs|
    ensures forall k :: 0 <= k < |rs| ==> RelPairs(rs)[k] == {rs[k].source, rs[k].target}
  {
    if rs != [] {
      RelPairsAt(rs[..|rs| - 1]);
    }
  }

  // ---------------------------------------------------------------------------
  // The loops as the source runs them.

  method AddConceptNodes(concepts: seq<InConcept>) returns (g: Graph)
    ensures g == ConceptNodes(concepts)
  {
    g := [];
    for k := 0 to |concepts|
      invariant g == ConceptNodes(concepts[..k])
    {
      assert concepts[..k + 1][..k] == concepts[..k];
      var c := concepts[k];
      var i := IndexOf(Keys(g), c.text);
      if i == |g| {
        g := g + [(c.text, Some(AttrOf(c)))];
      } else {
        g := g[i := (c.text, Some(AttrOf(c)))];
      }
    }
    assert concepts[..|concepts|] == concepts;
  }

  method AddRelationshipEdges(g0: Graph, relationships: seq<InRelationship>)
    returns (g: Graph, es: seq<MapEdge>)
    ensures g == EdgeNodes(g0, relationships)
    ensures es == EdgesOf(relationships)
  {
    g, es := g0, [];
    for k := 0 to |relationships|
      invariant g == EdgeNodes(g0, relationships[..k])
      invariant es == EdgesOf(relationships[..k])
    {
      assert relationships[..k + 1][..k] == relationships[..k];
      var r := relationships[k];
      if r.source !in Keys(g) {
        g := g + [(r.source, None)];
      }
      if r.target !in Keys(g) {
        g := g + [(r.target, None)];
      }
      var i := FindEdge(es, {r.source, r.target});
      if i == |es| {
        es := es + [Edge(r.source, r.target, DataOf(r))];
      } else {
        es := es[i := Edge(es[i].u, es[i].v, DataOf(r))];
      }
    }
    assert relationships[..|relationships|] == relationships;
  }

  // ---------------------------------------------------------------------------
  // What the graph holds.

  lemma {:induction false} KeysFacts(g: Graph)
    ensures forall i :: 0 <= i < |g| ==> Keys(g)[i] == g[i].0
  {
    if g != [] {
      KeysFacts(g[..|g| - 1]);
    }
  }

  lemma {:induction false} InTextsFacts(cs: seq<InConcept>)
    ensures forall i :: 0 <= i < |cs| ==> InTexts(cs)[i] == cs[i].text
  {
    if cs != [] {
      InTextsFacts(cs[..|cs| - 1]);
    }
  }

  lemma SetNodeKeys(g: Graph, k: string, a: NodeAttr)
    ensures Keys(SetNode(g, k, a)) == if k in Keys(g) then Keys(g) else Keys(g) + [k]
  {
    var i := IndexOf(Keys(g), k);
    var r := SetNode(g, k, a);
    KeysFacts(g);
    KeysFacts(r);
    if i < |g| {
      assert forall j :: 0 <= j < |g| ==> Keys(r)[j] == Keys(g)[j];
    } else {
      assert r == g + [(k, Some(a))];
      assert Keys(r) == Keys(g) + [k];
    }
  }

  /** One node per concept text, in order of first appearance, each with the
      attributes of the last concept with that text. */
  lemma ConceptNodesFacts(cs: seq<InConcept>)
    ensures Keys(ConceptNodes(cs)) == Dedup(InTexts(cs))
    ensures Attributed(ConceptNodes(cs))
    ensures forall i :: 0 <= i < |ConceptNodes(cs)| ==>
              ConceptNodes(cs)[i].0 in InTexts(cs) &&
              ConceptNodes(cs)[i].1 == Some(AttrOf(LastWith(cs, ConceptNodes(cs)[i].0)))
  {
    ConceptNodesKeys(cs);
    ConceptNodesAttrs(cs);
  }

  lemma {:induction false} ConceptNodesKeys(cs: seq<InConcept>)
    ensures Keys(ConceptNodes(cs)) == Dedup(InTexts(cs))
  {
    if cs != [] {
      var init := cs[..|cs| - 1];
      var c := cs[|cs| - 1];
      ConceptNodesKeys(init);
      var g := ConceptNodes(init);
      assert ConceptNodes(cs) == SetNode(g, c.text, AttrOf(c));
      assert InTexts(cs) == InTexts(init) + [c.text];
      SetNodeKeys(g, c.text, AttrOf(c));
      DedupSnoc(InTexts(init), c.text);
      DedupFacts(InTexts(init));
    } else {
      assert ConceptNodes(cs) == [];
    }
  }

  lemma {:induction false} ConceptNodesAttrs(cs: seq<InConcept>)
    ensures forall i :: 0 <= i < |ConceptNodes(cs)| ==>
              ConceptNodes(cs)[i].1.Some? &&
              ConceptNodes(cs)[i].0 in InTexts(cs) &&
              ConceptNodes(cs)[i].1 == Some(AttrOf(LastWith(cs, ConceptNodes(cs)[i].0)))
  {
    if cs != [] {
      var init := cs[..|cs| - 1];
      var c := cs[|cs| - 1];
      ConceptNodesAttrs(init);
      var g := ConceptNodes(init);
      var r := ConceptNodes(cs);
      assert r == SetNode(g, c.text, AttrOf(c));
      assert InTexts(cs) == InTexts(init) + [c.text];
      ConceptNodesKeys(init);
      DedupFacts(InTexts(init));
      KeysFacts(g);
      var i := IndexOf(Keys(g), c.text);
      forall j | 0 <= j < |r|
        ensures r[j].1.Some? && r[j].0 in InTexts(cs) && r[j].1 == Some(AttrOf(LastWith(cs, r[j].0)))
      {
        if j == i || j == |g| {
          assert r[j] == (c.text, Some(AttrOf(c)));
        } else {
          assert r[j] == g[j];
          assert Keys(g)[j] != c.text;
        }
      }
    } else {
      assert ConceptNodes(cs) == [];
    }
  }

  /** The edges only add nodes for unknown endpoints. */
  lemma {:induction false} EdgeNodesKnown(g: Graph, rs: seq<InRelationship>)
    requires forall i :: 0 <= i < |rs| ==> rs[i].source in Keys(g) && rs[i].target in Keys(g)
    ensures EdgeNodes(g, rs) == g
  {
    if rs != [] {
      EdgeNodesKnown(g, rs[..|rs| - 1]);
    }
  }

  /** `h` is `g` followed by nodes without attributes. */
  predicate Extends(h: Graph, g: Graph) {
    |g| <= |h| && h[..|g|] == g && forall j :: |g| <= j < |h| ==> h[j].1 == None
  }

  lemma ExtendsTrans(h2: Graph, h1: Graph, g: Graph)
    requires Extends(h2, h1) && Extends(h1, g)
    ensures Extends(h2, g)
  {
    assert h2[..|g|] == h2[..|h1|][..|g|];
    forall j | |g| <= j < |h2| ensures h2[j].1 == None {
      if j < |h1| {
        assert h2[j] == h2[..|h1|][j];
      }
    }
  }

  lemma EnsureFacts(g: Graph, k: string)
    ensures Extends(EnsureNode(g, k), g)
    ensures k in Keys(EnsureNode(g, k))
  {
    if k !in Keys(g) {
      assert Keys(g + [(k, None)]) == Keys(g) + [k];
      assert (g + [(k, None)])[..|g|] == g;
    }
  }

  /** The edges keep the nodes there were and add only nodes without
      attributes. */
  lemma {:induction false} EdgeNodesGrow(g: Graph, rs: seq<InRelationship>)
    ensures Extends(EdgeNodes(g, rs), g)
  {
    if rs != [] {
      var init := rs[..|rs| - 1];
      var r := rs[|rs| - 1];
      var h := EdgeNodes(g, init);
      var h1 := EnsureNode(h, r.source);
      var h2 := EnsureNode(h1, r.target);
      assert EdgeNodes(g, rs) == h2;
      EdgeNodesGrow(g, init);
      EnsureFacts(h, r.source);
      EnsureFacts(h1, r.target);
      ExtendsTrans(h2, h1, h);
      ExtendsTrans(h2, h, g);
    }
  }

  /** Every endpoint is a node once the edges are in. */
  lemma {:induction false} EdgeNodesEndpoints(g: Graph, rs: seq<InRelationship>)
    ensures HasEndpoints(EdgeNodes(g, rs), rs)
  {
    if rs != [] {
      var init := rs[..|rs| - 1];
      var r := rs[|rs| - 1];
      var h := EdgeNodes(g, init);
      var h1 := EnsureNode(h, r.source);
      var h2 := EnsureNode(h1, r.target);
      assert EdgeNodes(g, rs) == h2;
      EdgeNodesEndpoints(g, init);
      EnsureKeys(h, r.source);
      EnsureKeys(h1, r.target);
      EndpointsGrow(h, h1, init);
      EndpointsGrow(h1, h2, init);
      EndpointsSnoc(h2, init, r);
      assert init + [r] == rs;
    }
  }

  /** Both endpoints of every relationship are keys of `h`. */
  predicate HasEndpoints(h: Graph, rs: seq<InRelationship>) {
    forall i :: 0 <= i < |rs| ==> rs[i].source in Keys(h) && rs[i].target in Keys(h)
  }

  lemma EndpointsGrow(h: Graph, h': Graph, rs: seq<InRelationship>)
    requires HasEndpoints(h, rs) && forall x :: x in Keys(h) ==> x in Keys(h')
    ensures HasEndpoints(h', rs)
  {
  }

  lemma EndpointsSnoc(h: Graph, rs: seq<InRelationship>, r: InRelationship)
    requires HasEndpoints(h, rs) && r.source in Keys(h) && r.target in Keys(h)
    ensures HasEndpoints(h, rs + [r])
  {
    forall i | 0 <= i < |rs| + 1 ensures (rs + [r])[i].source in Keys(h) && (rs + [r])[i].target in Keys(h) {
      if i < |rs| {
        assert (rs + [r])[i] == rs[i];
      }
    }
  }

  /** Ensuring a node keeps every key and adds `k`. */
  lemma EnsureKeys(g: Graph, k: string)
    ensures k in Keys(EnsureNode(g, k))
    ensures forall x :: x in Keys(g) ==> x in Keys(EnsureNode(g, k))
  {
    EnsureFacts(g, k);
    KeysPrefix(g, EnsureNode(g, k));
  }

  /** Ensuring a node adds no key but `k`. */
  lemma EnsureOnly(g: Graph, k: string)
    ensures forall x :: x in Keys(EnsureNode(g, k)) ==> x in Keys(g) || x == k
  {
    if k !in Keys(g) {
      assert (g + [(k, None)])[..|g|] == g;
      assert Keys(EnsureNode(g, k)) == Keys(g) + [k];
    }
  }

  lemma KeysPrefix(g: Graph, h: Graph)
    requires Extends(h, g)
    ensures forall x :: x in Keys(g) ==> x in Keys(h)
  {
    KeysFacts(g);
    KeysFacts(h);
    forall x | x in Keys(g) ensures x in Keys(h) {
      var j :| 0 <= j < |g| && Keys(g)[j] == x;
      assert h[j] == g[j];
      assert Keys(h)[j] == x;
    }
  }

  /** The edges only add nodes for endpoints. */
  lemma EdgeNodesKeys(g: Graph, rs: seq<InRelationship>)
    ensures forall x :: x in Keys(EdgeNodes(g, rs)) ==>
              x in Keys(g) || exists i :: 0 <= i < |rs| && (rs[i].source == x || rs[i].target == x)
  {
    forall x | x in Keys(EdgeNodes(g, rs))
      ensures x in Keys(g) || exists i :: 0 <= i < |rs| && (rs[i].source == x || rs[i].target == x)
    {
      EdgeNodeKey(g, rs, x);
    }
  }

  lemma {:induction false} EdgeNodeKey(g: Graph, rs: seq<InRelationship>, x: string)
    requires x in Keys(EdgeNodes(g, rs))
    ensures x in Keys(g) || exists i :: 0 <= i < |rs| && (rs[i].source == x || rs[i].target == x)
    decreases |rs|
  {
    if rs != [] {
      var init := rs[..|rs| - 1];
      var r := rs[|rs| - 1];
      var h := EdgeNodes(g, init);
      var h1 := EnsureNode(h, r.source);
      EnsureOnly(h, r.source);
      EnsureOnly(h1, r.target);
      if x != r.source && x != r.target {
        assert x in Keys(h);
        EdgeNodeKey(g, init, x);
        if x !in Keys(g) {
          var i :| 0 <= i < |init| && (init[i].source == x || init[i].target == x);
          assert rs[i] == init[i];
        }
      } else {
        assert rs[|rs| - 1] == r;
      }
    }
  }

  /** The graph is fully attributed exactly when every endpoint is a concept
      text; then its nodes are the concept nodes. */
  lemma GraphNodesFacts(cs: seq<InConcept>, rs: seq<InRelationship>)
    ensures Attributed(GraphNodes(cs, rs)) <==> EndpointsKnown(cs, rs)
    ensures EndpointsKnown(cs, rs) ==> GraphNodes(cs, rs) == ConceptNodes(cs)
  {
    ConceptNodesFacts(cs);
    DedupFacts(InTexts(cs));
    var g := ConceptNodes(cs);
    if EndpointsKnown(cs, rs) {
      EdgeNodesKnown(g, rs);
    } else {
      var i :| 0 <= i < |rs| && !(rs[i].source in InTexts(cs) && rs[i].target in InTexts(cs));
      var x := if rs[i].source in InTexts(cs) then rs[i].target else rs[i].source;
      var h := GraphNodes(cs, rs);
      EdgeNodesGrow(g, rs);
      EdgeNodesEndpoints(g, rs);
      assert x in Keys(h);
      assert x !in Keys(g);
      NewKeyBare(g, h, x);
    }
  }

  /** A key the edges added carries no attributes. */
  lemma NewKeyBare(g: Graph, h: Graph, x: string)
    requires Extends(h, g) && x in Keys(h) && x !in Keys(g)
    ensures !Attributed(h)
  {
    KeysFacts(h);
    KeysFacts(g);
    var j :| 0 <= j < |h| && Keys(h)[j] == x;
    forall q | 0 <= q < |g| ensures Keys(h)[q] != x {
      assert h[q] == h[..|g|][q] == g[q];
      assert Keys(g)[q] in Keys(g);
    }
    assert j >= |g|;
    assert !h[j].1.Some?;
  }

  /** One edge per unordered pair of endpoints, each with the data of the
      last relationship between that pair. */
  lemma EdgesFacts(rs: seq<InRelationship>)
    ensures Distinct(Pairs(EdgesOf(rs)))
    ensures Pairs(EdgesOf(rs)) == Dedup(RelPairs(rs))
    ensures forall i :: 0 <= i < |EdgesOf(rs)| ==>
              (exists k :: 0 <= k < |rs| && {rs[k].source, rs[k].target} == Pair(EdgesOf(rs)[i])) &&
              EdgesOf(rs)[i].data == DataOf(LastBetween(rs, Pair(EdgesOf(rs)[i])))
  {
    EdgesPairs(rs);
    DedupFacts(RelPairs(rs));
    EdgesData(rs);
  }

  /** The pairs of the edges are the distinct pairs of the relationships, in
      order of first appearance. */
  lemma {:induction false} EdgesPairs(rs: seq<InRelationship>)
    ensures Pairs(EdgesOf(rs)) == Dedup(RelPairs(rs))
  {
    if rs != [] {
      var init := rs[..|rs| - 1];
      var r := rs[|rs| - 1];
      var p := {r.source, r.target};
      EdgesPairs(init);
      var es := EdgesOf(init);
      var out := EdgesOf(rs);
      assert out == AddEdge(es, r);
      assert RelPairs(rs) == RelPairs(init) + [p];
      DedupSnoc(RelPairs(init), p);
      DedupFacts(RelPairs(init));
      var i := FindEdge(es, p);
      if i == |es| {
        assert p !in Pairs(es);
        MapAppend(es, [Edge(r.source, r.target, DataOf(r))], (e: MapEdge) => Pair(e));
      } else {
        assert p in Pairs(es);
        assert Pairs(out) == Pairs(es) by {
          forall j | 0 <= j < |es| ensures Pairs(out)[j] == Pairs(es)[j] {
          }
        }
      }
    } else {
      assert EdgesOf(rs) == [];
    }
  }

  /** Each edge joins a pair some relationship joins, with the data of the
      last relationship between the pair. */
  lemma {:induction false} EdgesData(rs: seq<InRelationship>)
    ensures forall i :: 0 <= i < |EdgesOf(rs)| ==>
              (exists k :: 0 <= k < |rs| && {rs[k].source, rs[k].target} == Pair(EdgesOf(rs)[i])) &&
              EdgesOf(rs)[i].data == DataOf(LastBetween(rs, Pair(EdgesOf(rs)[i])))
  {
    if rs != [] {
      var init := rs[..|rs| - 1];
      var r := rs[|rs| - 1];
      var p := {r.source, r.target};
      EdgesData(init);
      EdgesPairs(init);
      DedupFacts(RelPairs(init));
      var es := EdgesOf(init);
      var out := EdgesOf(rs);
      assert out == AddEdge(es, r);
      var i := FindEdge(es, p);
      forall j | 0 <= j < |out|
        ensures (exists k :: 0 <= k < |rs| && {rs[k].source, rs[k].target} == Pair(out[j])) &&
                out[j].data == DataOf(LastBetween(rs, Pair(out[j])))
      {
        if j == i || j == |es| {
          assert Pair(out[j]) == p;
          assert {rs[|rs| - 1].source, rs[|rs| - 1].target} == p;
        } else {
          assert out[j] == es[j];
          var k :| 0 <= k < |init| && {init[k].source, init[k].target} == Pair(es[j]);
          assert rs[k] == init[k];
          assert Pairs(es)[j] == Pair(es[j]);
          assert Pair(es[j]) != p by {
            if i < |es| {
              assert Pairs(es)[i] == p;
            }
          }
        }
      }
    } else {
      assert EdgesOf(rs) == [];
    }
  }

  /** Every relationship's pair of endpoints has an edge. */
  lemma PairsOfEdges(rs: seq<InRelationship>)
    ensures forall k :: 0 <= k < |rs| ==> {rs[k].source, rs[k].target} in Pairs(EdgesOf(rs))
  {
    EdgesFacts(rs);
    RelPairsAt(rs);
    DedupFacts(RelPairs(rs));
    forall k | 0 <= k < |rs| ensures {rs[k].source, rs[k].target} in Pairs(EdgesOf(rs)) {
      assert RelPairs(rs)[k] in RelPairs(rs);
    }
  }
}
