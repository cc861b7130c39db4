/** `KnowledgeMapper.generate_knowledge_map` (mapper.py): the nodes, links and
    cluster centres a visualisation draws. The force-directed layout is an
    input: one position per graph node, in node order, as `spring_layout`
    returns them. Coordinates and importances are exact reals. */
module Mapper {
  import opened Util
  import opened Text
  import opened Undirected
  import opened MapperGraph
  import opened Hierarchy

  datatype InCluster = InCluster(id: nat, members: seq<string>, name: Option<string>)

  /** The extracted knowledge the mapper reads; a missing list is empty and a
      missing hierarchy is `None`. */
  datatype MapInput = MapInput(
    concepts: seq<InConcept>, relationships: seq<InRelationship>,
    hierarchy: Option<HierarchyResult>, clusters: seq<InCluster>)

  datatype MapNode = MapNode(
    id: string, caption: string, ntype: string, importance: real, frequency: nat,
    x: real, y: real, size: real)

  datatype Link = Link(source: string, target: string, weight: nat, ltype: string, subtypes: seq<string>)

  datatype MapCluster = MapCluster(id: nat, name: string, members: seq<string>, center: (real, real), size: nat)

  datatype Metadata = Metadata(totalNodes: nat, totalLinks: nat, totalClusters: nat)

  datatype KnowledgeMap = KnowledgeMap(
    nodes: seq<MapNode>, links: seq<Link>, clusters: seq<MapCluster>,
    hierarchy: Option<HierarchyResult>, metadata: Metadata)

  const EmptyMap := KnowledgeMap([], [], [], None, Metadata(0, 0, 0))

  /** The layout has one position per node of the graph (it is only computed
      when there are concepts). */
  predicate LayoutFits(input: MapInput, layout: seq<(real, real)>) {
    input.concepts != [] ==> |layout| == |GraphNodes(input.concepts, input.relationships)|
  }

  // ---------------------------------------------------------------------------
  // Min-max scaling.

  function Xs(ps: seq<(real, real)>): (r: seq<real>)
    ensures |r| == |ps|
  {
    if ps == [] then [] else Xs(ps[..|ps| - 1]) + [ps[|ps| - 1].0]
  }

  function Ys(ps: seq<(real, real)>): (r: seq<real>)
    ensures |r| == |ps|
  {
    if ps == [] then [] else Ys(ps[..|ps| - 1]) + [ps[|ps| - 1].1]
  }

  /** `max - min if max > min else 1` */
  function Range(s: seq<real>): (r: real)
    requires |s| > 0
    ensures r > 0.0
  {
    if MaxOf(s) > MinOf(s) then MaxOf(s) - MinOf(s) else 1.0
  }

  /** `(v - min) / range` */
  function Scale(s: seq<real>, v: real): real
    requires |s| > 0
  {
    (v - MinOf(s)) / Range(s)
  }

  /** `normalized_positions`, in node order. */
  function Normalized(ps: seq<(real, real)>, xs: seq<real>, ys: seq<real>): (r: seq<(real, real)>)
    requires |xs| > 0 && |ys| > 0
    ensures |r| == |ps|
  {
    ScaledBy(ps, MinOf(xs), Range(xs), MinOf(ys), Range(ys))
  }

  /** The points scaled by given minima and ranges. */
  function ScaledBy(ps: seq<(real, real)>, minX: real, xRange: real, minY: real, yRange: real): (r: seq<(real, real)>)
    requires xRange != 0.0 && yRange != 0.0
    ensures |r| == |ps|
  {
    if ps == [] then []
    else
      var p := ps[|ps| - 1];
      ScaledBy(ps[..|ps| - 1], minX, xRange, minY, yRange) + [((p.0 - minX) / xRange, (p.1 - minY) / yRange)]
  }

  function NormalizedLayout(ps: seq<(real, real)>): (r: seq<(real, real)>)
    requires |ps| > 0
    ensures |r| == |ps|
  {
    Normalized(ps, Xs(ps), Ys(ps))
  }

  /** The importance of every node, in node order. */
  function Importances(g: Graph): (r: seq<real>)
    requires Attributed(g)
    ensures |r| == |g|
  {
    if g == [] then [] else Importances(g[..|g| - 1]) + [g[|g| - 1].1.value.importance]
  }

  /** `5 + ((importance - min) / range) * 15` */
  function SizeOf(imps: seq<real>, v: real): real
    requires |imps| > 0
  {
    5.0 + Scale(imps, v) * 15.0
  }

  function Sizes(vs: seq<real>, imps: seq<real>): (r: seq<real>)
    requires |imps| > 0
    ensures |r| == |vs|
  {
    SizedBy(vs, MinOf(imps), Range(imps))
  }

  /** The sizes for a given minimum and range. */
  function SizedBy(vs: seq<real>, lo: real, range: real): (r: seq<real>)
    requires range != 0.0
    ensures |r| == |vs|
  {
    if vs == [] then [] else SizedBy(vs[..|vs| - 1], lo, range) + [5.0 + ((vs[|vs| - 1] - lo) / range) * 15.0]
  }

  // ---------------------------------------------------------------------------
  // The lists the map holds.

  function NodeOf(k: string, a: NodeAttr, p: (real, real), size: real): MapNode {
    MapNode(k, k, a.ctype, a.importance, a.frequency, p.0, p.1, size)
  }

  function NodesOf(g: Graph, pos: seq<(real, real)>, sizes: seq<real>): (r: seq<MapNode>)
    requires Attributed(g) && |pos| == |g| && |sizes| == |g|
    ensures |r| == |g|
  {
    if g == [] then []
    else
      var n := |g| - 1;
      NodesOf(g[..n], pos[..n], sizes[..n]) + [NodeOf(g[n].0, g[n].1.value, pos[n], sizes[n])]
  }

  function LinkOf(e: MapEdge): Link {
    Link(e.u, e.v, e.data.weight, e.data.ltype, e.data.subtypes)
  }

  function LinksOf(view: seq<MapEdge>): (r: seq<Link>)
    ensures |r| == |view|
  {
    if view == [] then [] else LinksOf(view[..|view| - 1]) + [LinkOf(view[|view| - 1])]
  }

  /** `[n for n in nodes if n['id'] in cluster['concepts']]` */
  function ClusterNodes(nodes: seq<MapNode>, members: seq<string>): seq<MapNode> {
    if nodes == [] then []
    else
      var n := nodes[|nodes| - 1];
      ClusterNodes(nodes[..|nodes| - 1], members) + (if n.id in members then [n] else [])
  }

  function NodeXs(ns: seq<MapNode>): (r: seq<real>)
    ensures |r| == |ns|
  {
    if ns == [] then [] else NodeXs(ns[..|ns| - 1]) + [ns[|ns| - 1].x]
  }

  function NodeYs(ns: seq<MapNode>): (r: seq<real>)
    ensures |r| == |ns|
  {
    if ns == [] then [] else NodeYs(ns[..|ns| - 1]) + [ns[|ns| - 1].y]
  }

  /** The mean position of the member nodes. */
  function Center(ns: seq<MapNode>): (real, real)
    requires |ns| > 0
  {
    (Sum(NodeXs(ns)) / |ns| as real, Sum(NodeYs(ns)) / |ns| as real)
  }

  function ClusterName(c: InCluster): string {
    Or(c.name, "Cluster " + NatToString(c.id))
  }

  /** `cluster_data`: the clusters with at least one member node. */
  function ClusterData(nodes: seq<MapNode>, cls: seq<InCluster>): (r: seq<MapCluster>)
    ensures |r| <= |cls|
  {
    if cls == [] then []
    else
      var c := cls[|cls| - 1];
      var cn := ClusterNodes(nodes, c.members);
      ClusterData(nodes, cls[..|cls| - 1])
        + (if cn != [] then [MapCluster(c.id, ClusterName(c), c.members, Center(cn), |c.members|)] else [])
  }

  function MapOf(input: MapInput, layout: seq<(real, real)>): Result<KnowledgeMap>
    requires LayoutFits(input, layout)
  {
    if input.concepts == [] then Success(EmptyMap)
    else
      var g := GraphNodes(input.concepts, input.relationships);
      if !Attributed(g) then Failure("KeyError")
      else
        var imps := Importances(g);
        var nodes := NodesOf(g, NormalizedLayout(layout), Sizes(imps, imps));
        var links := LinksOf(EdgeView(Keys(g), EdgesOf(input.relationships)));
        var cl := ClusterData(nodes, input.clusters);
        Success(KnowledgeMap(nodes, links, cl, input.hierarchy, Metadata(|nodes|, |links|, |cl|)))
  }

  // ---------------------------------------------------------------------------
  // The loops as the source runs them.

  method GenerateKnowledgeMap(input: MapInput, layout: seq<(real, real)>) returns (r: Result<KnowledgeMap>)
    requires LayoutFits(input, layout)
    ensures r == MapOf(input, layout)
  {
    if input.concepts == [] {
      return Success(EmptyMap);
    }
    var g0 := AddConceptNodes(input.concepts);
    var g, es := AddRelationshipEdges(g0, input.relationships);
    var pos := NormalizePositions(layout);
    var imps := ImportanceValues(g);
    if imps.None? {
      return Failure("KeyError");
    }
    var sizes := NodeSizes(imps.value);
    var nodes := BuildNodes(g, pos, sizes);
    var links := BuildLinks(EdgeView(Keys(g), es));
    var cl := BuildClusters(nodes, input.clusters);
    r := Success(KnowledgeMap(nodes, links, cl, input.hierarchy, Metadata(|nodes|, |links|, |cl|)));
  }

  method NormalizePositions(layout: seq<(real, real)>) returns (pos: seq<(real, real)>)
    requires |layout| > 0
    ensures pos == NormalizedLayout(layout)
  {
    var xs, ys := Xs(layout), Ys(layout);
    var minX, maxX, minY, maxY := MinOf(xs), MaxOf(xs), MinOf(ys), MaxOf(ys);
    var xRange := if maxX > minX then maxX - minX else 1.0;
    var yRange := if maxY > minY then maxY - minY else 1.0;
    pos := ScalePositions(layout, minX, xRange, minY, yRange);
  }

  /** The loop over the nodes that fills `normalized_positions`. */
  method ScalePositions(layout: seq<(real, real)>, minX: real, xRange: real, minY: real, yRange: real)
    returns (pos: seq<(real, real)>)
    requires xRange != 0.0 && yRange != 0.0
    ensures pos == ScaledBy(layout, minX, xRange, minY, yRange)
  {
    pos := [];
    for k := 0 to |layout|
      invariant pos == ScaledBy(layout[..k], minX, xRange, minY, yRange)
    {
      assert layout[..k + 1] == layout[..k] + [layout[k]];
      ScaledBySnoc(layout[..k], layout[k], minX, xRange, minY, yRange);
      pos := pos + [((layout[k].0 - minX) / xRange, (layout[k].1 - minY) / yRange)];
    }
    assert layout[..|layout|] == layout;
  }

  /** `importance_values`, or `None` where a node has no importance (the
      `KeyError` of `G.nodes[node]['importance']`). */
  method ImportanceValues(g: Graph) returns (imps: Option<seq<real>>)
    ensures imps.None? <==> !Attributed(g)
    ensures imps.Some? ==> Attributed(g) && imps.value == Importances(g)
  {
    var vs: seq<real> := [];
    for k := 0 to |g|
      invariant Attributed(g[..k]) && vs == Importances(g[..k])
    {
      assert g[..k + 1][..k] == g[..k];
      if g[k].1.None? {
        assert !Attributed(g) by {
          assert !g[k].1.Some?;
        }
        return None;
      }
      vs := vs + [g[k].1.value.importance];
    }
    assert g[..|g|] == g;
    imps := Some(vs);
  }

  method NodeSizes(imps: seq<real>) returns (sizes: seq<real>)
    requires |imps| > 0
    ensures sizes == Sizes(imps, imps)
  {
    var lo, hi := MinOf(imps), MaxOf(imps);
    var range := if hi > lo then hi - lo else 1.0;
    sizes := ScaleSizes(imps, lo, range);
  }

  /** The loop over the nodes that fills `node_sizes`. */
  method ScaleSizes(imps: seq<real>, lo: real, range: real) returns (sizes: seq<real>)
    requires range != 0.0
    ensures sizes == SizedBy(imps, lo, range)
  {
    sizes := [];
    for k := 0 to |imps|
      invariant sizes == SizedBy(imps[..k], lo, range)
    {
      assert imps[..k + 1] == imps[..k] + [imps[k]];
      SizedBySnoc(imps[..k], imps[k], lo, range);
      sizes := sizes + [5.0 + ((imps[k] - lo) / range) * 15.0];
    }
    assert imps[..|imps|] == imps;
  }

  method BuildNodes(g: Graph, pos: seq<(real, real)>, sizes: seq<real>) returns (nodes: seq<MapNode>)
    requires Attributed(g) && |pos| == |g| && |sizes| == |g|
    ensures nodes == NodesOf(g, pos, sizes)
  {
    nodes := [];
    for k := 0 to |g|
      invariant nodes == NodesOf(g[..k], pos[..k], sizes[..k])
    {
      assert g[..k + 1][..k] == g[..k];
      assert pos[..k + 1][..k] == pos[..k];
      assert sizes[..k + 1][..k] == sizes[..k];
      var (node, data) := g[k];
      nodes := nodes + [MapNode(node, node, data.value.ctype, data.value.importance, data.value.frequency,
                                pos[k].0, pos[k].1, sizes[k])];
    }
    assert g[..|g|] == g && pos[..|g|] == pos && sizes[..|g|] == sizes;
  }

  method BuildLinks(view: seq<MapEdge>) returns (links: seq<Link>)
    ensures links == LinksOf(view)
  {
    links := [];
    for k := 0 to |view|
      invariant links == LinksOf(view[..k])
    {
      assert view[..k + 1][..k] == view[..k];
      var e := view[k];
      links := links + [Link(e.u, e.v, e.data.weight, e.data.ltype, e.data.subtypes)];
    }
    assert view[..|view|] == view;
  }

  method BuildClusters(nodes: seq<MapNode>, clusters: seq<InCluster>) returns (cl: seq<MapCluster>)
    ensures cl == ClusterData(nodes, clusters)
  {
    cl := [];
    for k := 0 to |clusters|
      invariant cl == ClusterData(nodes, clusters[..k])
    {
      assert clusters[..k + 1][..k] == clusters[..k];
      var c := clusters[k];
      var cn := ClusterNodes(nodes, c.members);
      if cn != [] {
        var centerX := Sum(NodeXs(cn)) / |cn| as real;
        var centerY := Sum(NodeYs(cn)) / |cn| as real;
        var name := if c.name.Some? then c.name.value else "Cluster " + NatToString(c.id);
        cl := cl + [MapCluster(c.id, name, c.members, (centerX, centerY), |c.members|)];
      }
    }
    assert clusters[..|clusters|] == clusters;
  }

  // ---------------------------------------------------------------------------
  // What the map holds.

  /** No concepts: an empty map with an empty hierarchy and zero counts.
      Otherwise the counts are the lengths of the lists and the hierarchy is
      passed through. */
  lemma MapShape(input: MapInput, layout: seq<(real, real)>)
    requires LayoutFits(input, layout)
    ensures input.concepts == [] ==> MapOf(input, layout) == Success(KnowledgeMap([], [], [], None, Metadata(0, 0, 0)))
    ensures MapOf(input, layout).Success? ==>
      var m := MapOf(input, layout).value;
      m.metadata == Metadata(|m.nodes|, |m.links|, |m.clusters|)
      && (input.concepts != [] ==> m.hierarchy == input.hierarchy)
  {
  }

  /** The map fails, with `KeyError`, exactly when some relationship names a
      node that is not a concept, since that node has no importance. */
  lemma MapFailure(input: MapInput, layout: seq<(real, real)>)
    requires LayoutFits(input, layout)
    ensures MapOf(input, layout).Failure? <==> input.concepts != [] && !EndpointsKnown(input.concepts, input.relationships)
    ensures MapOf(input, layout).Failure? ==> MapOf(input, layout).error == "KeyError"
  {
    GraphNodesFacts(input.concepts, input.relationships);
  }

  lemma {:induction false} NodesAt(g: Graph, pos: seq<(real, real)>, sizes: seq<real>)
    requires Attributed(g) && |pos| == |g| && |sizes| == |g|
    ensures forall i :: 0 <= i < |g| ==> NodesOf(g, pos, sizes)[i] == NodeOf(g[i].0, g[i].1.value, pos[i], sizes[i])
  {
    if g != [] {
      var n := |g| - 1;
      assert Attributed(g[..n]);
      NodesAt(g[..n], pos[..n], sizes[..n]);
    }
  }

  lemma {:induction false} ImportancesAt(g: Graph)
    requires Attributed(g)
    ensures forall i :: 0 <= i < |g| ==> Importances(g)[i] == g[i].1.value.importance
  {
    if g != [] {
      assert Attributed(g[..|g| - 1]);
      ImportancesAt(g[..|g| - 1]);
    }
  }

  lemma {:induction false} XsYsAt(ps: seq<(real, real)>)
    ensures forall i :: 0 <= i < |ps| ==> Xs(ps)[i] == ps[i].0 && Ys(ps)[i] == ps[i].1
  {
    if ps != [] {
      XsYsAt(ps[..|ps| - 1]);
    }
  }

  lemma ScaledBySnoc(ps: seq<(real, real)>, p: (real, real), minX: real, xRange: real, minY: real, yRange: real)
    requires xRange != 0.0 && yRange != 0.0
    ensures ScaledBy(ps + [p], minX, xRange, minY, yRange)
            == ScaledBy(ps, minX, xRange, minY, yRange) + [((p.0 - minX) / xRange, (p.1 - minY) / yRange)]
  {
    assert (ps + [p])[..|ps|] == ps;
  }

  lemma SizedBySnoc(vs: seq<real>, v: real, lo: real, range: real)
    requires range != 0.0
    ensures SizedBy(vs + [v], lo, range) == SizedBy(vs, lo, range) + [5.0 + ((v - lo) / range) * 15.0]
  {
    assert (vs + [v])[..|vs|] == vs;
  }

  lemma NormalizedAt(ps: seq<(real, real)>, xs: seq<real>, ys: seq<real>)
    requires |xs| > 0 && |ys| > 0
    ensures forall i :: 0 <= i < |ps| ==> Normalized(ps, xs, ys)[i] == (Scale(xs, ps[i].0), Scale(ys, ps[i].1))
  {
    ScaledByAt(ps, MinOf(xs), Range(xs), MinOf(ys), Range(ys));
  }

  lemma {:induction false} ScaledByAt(ps: seq<(real, real)>, minX: real, xRange: real, minY: real, yRange: real)
    requires xRange != 0.0 && yRange != 0.0
    ensures forall i :: 0 <= i < |ps| ==>
              ScaledBy(ps, minX, xRange, minY, yRange)[i] == ((ps[i].0 - minX) / xRange, (ps[i].1 - minY) / yRange)
  {
    if ps != [] {
      ScaledByAt(ps[..|ps| - 1], minX, xRange, minY, yRange);
    }
  }

  lemma SizesAt(vs: seq<real>, imps: seq<real>)
    requires |imps| > 0
    ensures forall i :: 0 <= i < |vs| ==> Sizes(vs, imps)[i] == SizeOf(imps, vs[i])
  {
    SizedByAt(vs, MinOf(imps), Range(imps));
  }

  lemma {:induction false} SizedByAt(vs: seq<real>, lo: real, range: real)
    requires range != 0.0
    ensures forall i :: 0 <= i < |vs| ==> SizedBy(vs, lo, range)[i] == 5.0 + ((vs[i] - lo) / range) * 15.0
  {
    if vs != [] {
      SizedByAt(vs[..|vs| - 1], lo, range);
    }
  }

  /** Min-max scaling puts every value in [0, 1], the minimum at 0, the
      maximum at 1 when the values differ, and keeps the order. */
  lemma ScaleFacts(s: seq<real>, i: nat, j: nat)
    requires i < |s| && j < |s|
    ensures 0.0 <= Scale(s, s[i]) <= 1.0
    ensures Scale(s, MinOf(s)) == 0.0
    ensures MaxOf(s) > MinOf(s) ==> Scale(s, MaxOf(s)) == 1.0
    ensures s[i] <= s[j] ==> Scale(s, s[i]) <= Scale(s, s[j])
  {
    ScaleUnit(s, s[i]);
    ScaleEnds(s);
    if s[i] <= s[j] {
      ScaleMono(s, s[i], s[j]);
    }
  }

  lemma ScaleUnit(s: seq<real>, v: real)
    requires |s| > 0 && MinOf(s) <= v <= MaxOf(s)
    ensures 0.0 <= Scale(s, v) <= 1.0
  {
    var lo, rg := MinOf(s), Range(s);
    assert v - lo <= rg;
    DivBounds(v - lo, rg);
  }

  lemma ScaleEnds(s: seq<real>)
    requires |s| > 0
    ensures Scale(s, MinOf(s)) == 0.0
    ensures MaxOf(s) > MinOf(s) ==> Scale(s, MaxOf(s)) == 1.0
  {
    var lo, hi, rg := MinOf(s), MaxOf(s), Range(s);
    assert Scale(s, lo) == 0.0 / rg;
    if hi > lo {
      assert Scale(s, hi) == rg / rg;
      DivSelf(rg);
    }
  }

  lemma DivSelf(b: real)
    requires b > 0.0
    ensures b / b == 1.0
  {
  }

  lemma ScaleMono(s: seq<real>, a: real, b: real)
    requires |s| > 0 && a <= b
    ensures Scale(s, a) <= Scale(s, b)
  {
    DivMono(a - MinOf(s), b - MinOf(s), Range(s));
  }

  lemma DivBounds(a: real, b: real)
    requires 0.0 <= a <= b && b > 0.0
    ensures 0.0 <= a / b <= 1.0
  {
    assert a / b * b == a;
  }

  lemma DivMono(a: real, c: real, b: real)
    requires b > 0.0
    ensures a <= c ==> a / b <= c / b
  {
    assert a / b * b == a && c / b * b == c;
  }

  /** A successful map is built over the concept nodes. */
  lemma MapSuccess(input: MapInput, layout: seq<(real, real)>)
    requires LayoutFits(input, layout) && MapOf(input, layout).Success? && input.concepts != []
    ensures var g := ConceptNodes(input.concepts);
      && GraphNodes(input.concepts, input.relationships) == g
      && Attributed(g) && |layout| == |g| && |g| > 0
      && MapOf(input, layout).value.nodes == NodesOf(g, NormalizedLayout(layout), Sizes(Importances(g), Importances(g)))
  {
    MapFailure(input, layout);
    GraphNodesFacts(input.concepts, input.relationships);
  }

  /** The nodes are the concept texts, once each in order of first
      appearance, with id and label the text and the attributes of the last
      concept with that text (missing fields defaulted). */
  lemma MapNodes(input: MapInput, layout: seq<(real, real)>)
    requires LayoutFits(input, layout) && MapOf(input, layout).Success?
    ensures var ns := MapOf(input, layout).value.nodes;
      && |ns| == |Dedup(InTexts(input.concepts))|
      && forall i :: 0 <= i < |ns| ==>
           ns[i].id == ns[i].caption == Dedup(InTexts(input.concepts))[i] && ns[i].id in InTexts(input.concepts)
           && (var a := AttrOf(LastWith(input.concepts, ns[i].id));
               ns[i].ntype == a.ctype && ns[i].importance == a.importance && ns[i].frequency == a.frequency)
  {
    var cs := input.concepts;
    if cs != [] {
      MapSuccess(input, layout);
      var g := ConceptNodes(cs);
      var imps := Importances(g);
      var ns := MapOf(input, layout).value.nodes;
      assert ns == NodesOf(g, NormalizedLayout(layout), Sizes(imps, imps));
      NodeIdFacts(cs, NormalizedLayout(layout), Sizes(imps, imps));
    } else {
      DedupFacts(InTexts(cs));
    }
  }

  lemma NodeIdFacts(cs: seq<InConcept>, pos: seq<(real, real)>, sizes: seq<real>)
    requires Attributed(ConceptNodes(cs)) && |pos| == |ConceptNodes(cs)| && |sizes| == |ConceptNodes(cs)|
    ensures var ns := NodesOf(ConceptNodes(cs), pos, sizes);
      && |ns| == |Dedup(InTexts(cs))|
      && forall i :: 0 <= i < |ns| ==>
           ns[i].id == ns[i].caption == Dedup(InTexts(cs))[i] && ns[i].id in InTexts(cs)
           && (var a := AttrOf(LastWith(cs, ns[i].id));
               ns[i].ntype == a.ctype && ns[i].importance == a.importance && ns[i].frequency == a.frequency)
  {
    var g := ConceptNodes(cs);
    ConceptNodesFacts(cs);
    KeysFacts(g);
    DedupFacts(InTexts(cs));
    NodesAt(g, pos, sizes);
  }

  /** Every coordinate lies in [0, 1], and some node sits at 0 on each axis. */
  lemma MapPositions(input: MapInput, layout: seq<(real, real)>)
    requires LayoutFits(input, layout) && MapOf(input, layout).Success?
    ensures var ns := MapOf(input, layout).value.nodes;
      && (forall i :: 0 <= i < |ns| ==> 0.0 <= ns[i].x <= 1.0 && 0.0 <= ns[i].y <= 1.0)
      && (input.concepts != [] ==> (exists i :: 0 <= i < |ns| && ns[i].x == 0.0) && (exists i :: 0 <= i < |ns| && ns[i].y == 0.0))
  {
    if input.concepts != [] {
      MapSuccess(input, layout);
      var g := ConceptNodes(input.concepts);
      var imps := Importances(g);
      var ns := MapOf(input, layout).value.nodes;
      assert ns == NodesOf(g, NormalizedLayout(layout), Sizes(imps, imps));
      NodePositionFacts(g, layout, Sizes(imps, imps));
    }
  }

  lemma NodePositionFacts(g: Graph, layout: seq<(real, real)>, sizes: seq<real>)
    requires Attributed(g) && |layout| == |g| && |sizes| == |g| && |g| > 0
    ensures var ns := NodesOf(g, NormalizedLayout(layout), sizes);
      && (forall i :: 0 <= i < |ns| ==> 0.0 <= ns[i].x <= 1.0 && 0.0 <= ns[i].y <= 1.0)
      && (exists i :: 0 <= i < |ns| && ns[i].x == 0.0) && (exists i :: 0 <= i < |ns| && ns[i].y == 0.0)
  {
    var xs, ys := Xs(layout), Ys(layout);
    var pos := NormalizedLayout(layout);
    var ns := NodesOf(g, pos, sizes);
    NodesAt(g, pos, sizes);
    NormalizedAt(layout, xs, ys);
    XsYsAt(layout);
    forall i | 0 <= i < |ns| ensures 0.0 <= ns[i].x <= 1.0 && 0.0 <= ns[i].y <= 1.0 {
      ScaleFacts(xs, i, i);
      ScaleFacts(ys, i, i);
    }
    var a :| 0 <= a < |xs| && xs[a] == MinOf(xs);
    var b :| 0 <= b < |ys| && ys[b] == MinOf(ys);
    ScaleFacts(xs, a, a);
    ScaleFacts(ys, b, b);
    assert ns[a].x == 0.0 && ns[b].y == 0.0;
  }

  /** Sizes lie in [5, 20] and follow importance: the least important node
      gets 5, the most important 20 unless all importances are equal, in
      which case every node gets 5. */
  predicate SizedByImportance(ns: seq<MapNode>) {
    && (forall i :: 0 <= i < |ns| ==> 5.0 <= ns[i].size <= 20.0)
    && (forall i, j :: 0 <= i < |ns| && 0 <= j < |ns| && ns[i].importance <= ns[j].importance ==> ns[i].size <= ns[j].size)
    && (ns != [] ==> exists i :: 0 <= i < |ns| && ns[i].size == 5.0)
    && ((exists i, j :: 0 <= i < |ns| && 0 <= j < |ns| && ns[i].importance != ns[j].importance) ==>
          exists i :: 0 <= i < |ns| && ns[i].size == 20.0)
    && ((forall i, j :: 0 <= i < |ns| && 0 <= j < |ns| ==> ns[i].importance == ns[j].importance) ==>
          forall i :: 0 <= i < |ns| ==> ns[i].size == 5.0)
  }

  /** The node sizes of a successful map follow importance, and there is a
      node whenever there is a concept. */
  lemma MapSizes(input: MapInput, layout: seq<(real, real)>)
    requires LayoutFits(input, layout) && MapOf(input, layout).Success?
    ensures SizedByImportance(MapOf(input, layout).value.nodes)
    ensures input.concepts != [] ==> MapOf(input, layout).value.nodes != []
  {
    if input.concepts != [] {
      MapSuccess(input, layout);
      var g := ConceptNodes(input.concepts);
      var imps := Importances(g);
      NodeSizeFacts(g, NormalizedLayout(layout));
      assert MapOf(input, layout).value.nodes == NodesOf(g, NormalizedLayout(layout), Sizes(imps, imps));
    } else {
      assert MapOf(input, layout).value.nodes == [];
    }
  }

  lemma NodeSizeFacts(g: Graph, pos: seq<(real, real)>)
    requires Attributed(g) && |pos| == |g| && |g| > 0
    ensures SizedByImportance(NodesOf(g, pos, Sizes(Importances(g), Importances(g))))
    ensures NodesOf(g, pos, Sizes(Importances(g), Importances(g))) != []
  {
    var imps := Importances(g);
    var sizes := Sizes(imps, imps);
    var ns := NodesOf(g, pos, sizes);
    NodesAt(g, pos, sizes);
    ImportancesAt(g);
    assert |ns| == |imps| == |sizes| > 0;
    assert forall i :: 0 <= i < |ns| ==> ns[i].importance == imps[i] && ns[i].size == sizes[i];
    SizeSeqFacts(imps);
    SizedTransfer(ns, imps, sizes);
  }

  /** The size facts of the importance and size lists carry over to the nodes
      that hold them. */
  lemma SizedTransfer(ns: seq<MapNode>, imps: seq<real>, sz: seq<real>)
    requires |ns| == |imps| == |sz| > 0
    requires forall i :: 0 <= i < |ns| ==> ns[i].importance == imps[i] && ns[i].size == sz[i]
    requires SizedSeq(imps, sz)
    ensures SizedByImportance(ns)
  {
    SizedTransferOrder(ns, imps, sz);
    SizedTransferEnds(ns, imps, sz);
  }

  lemma SizedTransferOrder(ns: seq<MapNode>, imps: seq<real>, sz: seq<real>)
    requires |ns| == |imps| == |sz| > 0
    requires forall i :: 0 <= i < |ns| ==> ns[i].importance == imps[i] && ns[i].size == sz[i]
    requires SizedSeq(imps, sz)
    ensures forall i :: 0 <= i < |ns| ==> 5.0 <= ns[i].size <= 20.0
    ensures forall i, j :: 0 <= i < |ns| && 0 <= j < |ns| && ns[i].importance <= ns[j].importance ==> ns[i].size <= ns[j].size
  {
    forall i, j | 0 <= i < |ns| && 0 <= j < |ns|
      ensures 5.0 <= ns[i].size <= 20.0
      ensures ns[i].importance <= ns[j].importance ==> ns[i].size <= ns[j].size
    {
      assert ns[i].importance == imps[i] && ns[j].importance == imps[j];
    }
  }

  lemma SizedTransferEnds(ns: seq<MapNode>, imps: seq<real>, sz: seq<real>)
    requires |ns| == |imps| == |sz| > 0
    requires forall i :: 0 <= i < |ns| ==> ns[i].importance == imps[i] && ns[i].size == sz[i]
    requires SizedSeq(imps, sz)
    ensures exists i :: 0 <= i < |ns| && ns[i].size == 5.0
    ensures (exists i, j :: 0 <= i < |ns| && 0 <= j < |ns| && ns[i].importance != ns[j].importance) ==>
          exists i :: 0 <= i < |ns| && ns[i].size == 20.0
    ensures (forall i, j :: 0 <= i < |ns| && 0 <= j < |ns| ==> ns[i].importance == ns[j].importance) ==>
          forall i :: 0 <= i < |ns| ==> ns[i].size == 5.0
  {
    var a :| 0 <= a < |sz| && sz[a] == 5.0;
    assert ns[a].size == 5.0;
    if exists i, j :: 0 <= i < |ns| && 0 <= j < |ns| && ns[i].importance != ns[j].importance {
      var i, j :| 0 <= i < |ns| && 0 <= j < |ns| && ns[i].importance != ns[j].importance;
      assert imps[i] != imps[j];
      var b :| 0 <= b < |sz| && sz[b] == 20.0;
      assert ns[b].size == 20.0;
    }
    if forall i, j :: 0 <= i < |ns| && 0 <= j < |ns| ==> ns[i].importance == ns[j].importance {
      forall i, j | 0 <= i < |sz| && 0 <= j < |sz| ensures imps[i] == imps[j] {
        assert ns[i].importance == ns[j].importance;
      }
      forall i | 0 <= i < |ns| ensures ns[i].size == 5.0 {
        assert ns[i].size == sz[i];
      }
    }
  }

  /** The size facts about a list of sizes for a list of importances. */
  predicate SizedSeq(imps: seq<real>, sz: seq<real>)
    requires |sz| == |imps|
  {
    && (forall i :: 0 <= i < |sz| ==> 5.0 <= sz[i] <= 20.0)
    && (forall i, j :: 0 <= i < |sz| && 0 <= j < |sz| && imps[i] <= imps[j] ==> sz[i] <= sz[j])
    && (exists i :: 0 <= i < |sz| && sz[i] == 5.0)
    && ((exists i, j :: 0 <= i < |sz| && 0 <= j < |sz| && imps[i] != imps[j]) ==> exists i :: 0 <= i < |sz| && sz[i] == 20.0)
    && ((forall i, j :: 0 <= i < |sz| && 0 <= j < |sz| ==> imps[i] == imps[j]) ==> forall i :: 0 <= i < |sz| ==> sz[i] == 5.0)
  }

  lemma SizeSeqFacts(imps: seq<real>)
    requires |imps| > 0
    ensures SizedSeq(imps, Sizes(imps, imps))
  {
    SizesRange(imps);
    SizesMono(imps);
    SizesLeast(imps);
    SizesMost(imps);
    SizesFlat(imps);
  }

  /** A node size is 5 plus 15 times the scaled importance. */
  lemma SizeFacts(imps: seq<real>, i: nat, j: nat)
    requires i < |imps| && j < |imps|
    ensures 5.0 <= SizeOf(imps, imps[i]) <= 20.0
    ensures imps[i] <= imps[j] ==> SizeOf(imps, imps[i]) <= SizeOf(imps, imps[j])
    ensures imps[i] == MinOf(imps) ==> SizeOf(imps, imps[i]) == 5.0
    ensures imps[i] == MaxOf(imps) > MinOf(imps) ==> SizeOf(imps, imps[i]) == 20.0
  {
    ScaleFacts(imps, i, j);
  }

  lemma SizesRange(imps: seq<real>)
    requires |imps| > 0
    ensures var sz := Sizes(imps, imps); forall i :: 0 <= i < |sz| ==> 5.0 <= sz[i] <= 20.0
  {
    SizesAt(imps, imps);
    forall i | 0 <= i < |imps| ensures 5.0 <= Sizes(imps, imps)[i] <= 20.0 {
      SizeFacts(imps, i, i);
    }
  }

  lemma SizesMono(imps: seq<real>)
    requires |imps| > 0
    ensures var sz := Sizes(imps, imps);
      forall i, j :: 0 <= i < |sz| && 0 <= j < |sz| && imps[i] <= imps[j] ==> sz[i] <= sz[j]
  {
    SizesAt(imps, imps);
    forall i, j | 0 <= i < |imps| && 0 <= j < |imps| && imps[i] <= imps[j]
      ensures Sizes(imps, imps)[i] <= Sizes(imps, imps)[j]
    {
      SizeFacts(imps, i, j);
    }
  }

  lemma SizesLeast(imps: seq<real>)
    requires |imps| > 0
    ensures var sz := Sizes(imps, imps); exists i :: 0 <= i < |sz| && sz[i] == 5.0
  {
    SizesAt(imps, imps);
    var a :| 0 <= a < |imps| && imps[a] == MinOf(imps);
    SizeFacts(imps, a, a);
    assert Sizes(imps, imps)[a] == 5.0;
  }

  lemma SizesMost(imps: seq<real>)
    requires |imps| > 0
    ensures var sz := Sizes(imps, imps);
      (exists i, j :: 0 <= i < |sz| && 0 <= j < |sz| && imps[i] != imps[j]) ==> exists i :: 0 <= i < |sz| && sz[i] == 20.0
  {
    if exists i, j :: 0 <= i < |imps| && 0 <= j < |imps| && imps[i] != imps[j] {
      var i, j :| 0 <= i < |imps| && 0 <= j < |imps| && imps[i] != imps[j];
      assert MinOf(imps) <= imps[i] <= MaxOf(imps) && MinOf(imps) <= imps[j] <= MaxOf(imps);
      var b :| 0 <= b < |imps| && imps[b] == MaxOf(imps);
      SizesAt(imps, imps);
      SizeFacts(imps, b, b);
      assert Sizes(imps, imps)[b] == 20.0;
    }
  }

  lemma SizesFlat(imps: seq<real>)
    requires |imps| > 0
    ensures var sz := Sizes(imps, imps);
      (forall i, j :: 0 <= i < |sz| && 0 <= j < |sz| ==> imps[i] == imps[j]) ==> forall i :: 0 <= i < |sz| ==> sz[i] == 5.0
  {
    if forall i, j :: 0 <= i < |imps| && 0 <= j < |imps| ==> imps[i] == imps[j] {
      var a :| 0 <= a < |imps| && imps[a] == MinOf(imps);
      SizesAt(imps, imps);
      forall i | 0 <= i < |imps| ensures Sizes(imps, imps)[i] == 5.0 {
        assert imps[i] == imps[a];
        SizeFacts(imps, i, i);
      }
    }
  }

  // ---------------------------------------------------------------------------
  // Links.

  function LinkPair(l: Link): set<string> { {l.source, l.target} }

  /** The links of the relationships `rs`: one per unordered pair of
      endpoints that some relationship joins, and one for every such pair,
      with the data of the last relationship between the pair. */
  predicate LinksMatch(ls: seq<Link>, rs: seq<InRelationship>) {
    Distinct(Map(ls, LinkPair)) && LinksFromRels(ls, rs) && LinksCoverRels(ls, rs)
  }

  /** Every link joins a pair some relationship joins, with the data of the
      last relationship between the pair. */
  predicate LinksFromRels(ls: seq<Link>, rs: seq<InRelationship>) {
    forall i :: 0 <= i < |ls| ==>
      (exists k :: 0 <= k < |rs| && {rs[k].source, rs[k].target} == LinkPair(ls[i]))
      && LinkData(ls[i].weight, ls[i].ltype, ls[i].subtypes) == DataOf(LastBetween(rs, LinkPair(ls[i])))
  }

  /** Every relationship's pair is joined by a link. */
  predicate LinksCoverRels(ls: seq<Link>, rs: seq<InRelationship>) {
    forall k :: 0 <= k < |rs| ==> exists i :: 0 <= i < |ls| && LinkPair(ls[i]) == {rs[k].source, rs[k].target}
  }

  /** Each link joins two of the nodes and starts at the one that comes
      first, and the list is ordered by that first endpoint. */
  predicate LinksOrdered(ls: seq<Link>, nodes: seq<string>) {
    && (forall i :: 0 <= i < |ls| ==>
          ls[i].source in nodes && ls[i].target in nodes && IndexOf(nodes, ls[i].source) <= IndexOf(nodes, ls[i].target))
    && (forall i, j :: 0 <= i < j < |ls| ==> IndexOf(nodes, ls[i].source) <= IndexOf(nodes, ls[j].source))
  }

  predicate LinksFaithful(ls: seq<Link>, rs: seq<InRelationship>, nodes: seq<string>) {
    LinksMatch(ls, rs) && LinksOrdered(ls, nodes)
  }

  /** After a successful mapping, the links are faithful to the
      relationships, over the nodes in node order. */
  lemma {:induction false} MapLinks(input: MapInput, layout: seq<(real, real)>)
    requires LayoutFits(input, layout) && MapOf(input, layout).Success? && input.concepts != []
    ensures LinksFaithful(MapOf(input, layout).value.links, input.relationships, Dedup(InTexts(input.concepts)))
  {
    MapSuccess(input, layout);
    var cs, rs := input.concepts, input.relationships;
    var g := ConceptNodes(cs);
    var ls := MapOf(input, layout).value.links;
    assert ls == LinksOf(EdgeView(Keys(g), EdgesOf(rs)));
    ConceptNodesFacts(cs);
    DedupFacts(InTexts(cs));
    MapFailure(input, layout);
    LinkFacts(Keys(g), rs);
  }

  lemma {:induction false} LinkFacts(nodes: seq<string>, rs: seq<InRelationship>)
    requires forall k :: 0 <= k < |rs| ==> rs[k].source in nodes && rs[k].target in nodes
    ensures LinksFaithful(LinksOf(EdgeView(nodes, EdgesOf(rs))), rs, nodes)
  {
    EdgesWithin(nodes, rs);
    LinksMatchFacts(nodes, rs);
    LinksOrderedFacts(nodes, EdgesOf(rs));
  }

  lemma {:induction false} LinksMatchFacts(nodes: seq<string>, rs: seq<InRelationship>)
    requires EndpointsIn(nodes, EdgesOf(rs))
    ensures LinksMatch(LinksOf(EdgeView(nodes, EdgesOf(rs))), rs)
  {
    LinksDistinct(nodes, rs);
    LinksFromRelationships(nodes, rs);
    LinksCoverRelationships(nodes, rs);
  }

  lemma {:induction false} LinksDistinct(nodes: seq<string>, rs: seq<InRelationship>)
    requires EndpointsIn(nodes, EdgesOf(rs))
    ensures Distinct(Map(LinksOf(EdgeView(nodes, EdgesOf(rs))), LinkPair))
  {
    var es := EdgesOf(rs);
    var view := EdgeView(nodes, es);
    EdgesFacts(rs);
    EdgeViewSimple(nodes, es);
    LinksAt(view);
    assert Map(LinksOf(view), LinkPair) == Pairs(view);
  }

  lemma {:induction false} LinksFromRelationships(nodes: seq<string>, rs: seq<InRelationship>)
    requires EndpointsIn(nodes, EdgesOf(rs))
    ensures LinksFromRels(LinksOf(EdgeView(nodes, EdgesOf(rs))), rs)
  {
    var es := EdgesOf(rs);
    var view := EdgeView(nodes, es);
    var ls := LinksOf(view);
    EdgeViewFacts(nodes, es);
    LinksAt(view);
    forall i | 0 <= i < |ls|
      ensures (exists k :: 0 <= k < |rs| && {rs[k].source, rs[k].target} == LinkPair(ls[i]))
      ensures LinkData(ls[i].weight, ls[i].ltype, ls[i].subtypes) == DataOf(LastBetween(rs, LinkPair(ls[i])))
    {
      assert view[i] in view;
      var j :| 0 <= j < |es| && view[i] == Canon(nodes, es[j]);
      CanonPair(nodes, es[j]);
      LinkBack(rs, view[i], j);
    }
  }

  /** A link made from an edge with the pair and data of the `j`-th edge
      comes from a relationship between its endpoints, with the data of the
      last such relationship. */
  lemma LinkBack(rs: seq<InRelationship>, x: MapEdge, j: nat)
    requires j < |EdgesOf(rs)| && Pair(x) == Pair(EdgesOf(rs)[j]) && x.data == EdgesOf(rs)[j].data
    ensures exists k :: 0 <= k < |rs| && {rs[k].source, rs[k].target} == LinkPair(LinkOf(x))
    ensures LinkData(LinkOf(x).weight, LinkOf(x).ltype, LinkOf(x).subtypes) == DataOf(LastBetween(rs, LinkPair(LinkOf(x))))
  {
    EdgesFacts(rs);
    assert LinkPair(LinkOf(x)) == Pair(x);
  }

  lemma {:induction false} LinksCoverRelationships(nodes: seq<string>, rs: seq<InRelationship>)
    requires EndpointsIn(nodes, EdgesOf(rs))
    ensures LinksCoverRels(LinksOf(EdgeView(nodes, EdgesOf(rs))), rs)
  {
    var es := EdgesOf(rs);
    var ls := LinksOf(EdgeView(nodes, es));
    PairsOfEdges(rs);
    forall k | 0 <= k < |rs| ensures exists i :: 0 <= i < |ls| && LinkPair(ls[i]) == {rs[k].source, rs[k].target} {
      assert {rs[k].source, rs[k].target} in Pairs(es);
      LinkOfPair(nodes, es, {rs[k].source, rs[k].target});
    }
    assert ls == LinksOf(EdgeView(nodes, EdgesOf(rs)));
  }

  /** An edge between the pair is reported as a link between the pair. */
  lemma LinkOfPair(nodes: seq<string>, es: seq<MapEdge>, p: set<string>)
    requires EndpointsIn(nodes, es) && p in Pairs(es)
    ensures exists i :: 0 <= i < |LinksOf(EdgeView(nodes, es))| && LinkPair(LinksOf(EdgeView(nodes, es))[i]) == p
  {
    var view := EdgeView(nodes, es);
    EdgeViewFacts(nodes, es);
    LinksAt(view);
    var j :| 0 <= j < |es| && Pairs(es)[j] == p;
    CanonPair(nodes, es[j]);
    var x := Canon(nodes, es[j]);
    assert x in view;
    var i :| 0 <= i < |view| && view[i] == x;
    assert LinkPair(LinksOf(view)[i]) == p;
  }

  lemma LinksOrderedFacts(nodes: seq<string>, es: seq<MapEdge>)
    requires EndpointsIn(nodes, es)
    ensures LinksOrdered(LinksOf(EdgeView(nodes, es)), nodes)
  {
    LinksAt(EdgeView(nodes, es));
    EdgeViewOrdered(nodes, es);
    ViewWithin(nodes, es);
  }

  /** Every reported edge joins two of the nodes. */
  lemma ViewWithin(nodes: seq<string>, es: seq<MapEdge>)
    requires EndpointsIn(nodes, es)
    ensures forall x :: x in EdgeView(nodes, es) ==> x.u in nodes && x.v in nodes
  {
    EdgeViewFacts(nodes, es);
    forall x | x in EdgeView(nodes, es) ensures x.u in nodes && x.v in nodes {
      var j :| 0 <= j < |es| && x == Canon(nodes, es[j]);
      CanonPair(nodes, es[j]);
      assert x.u in Pair(x) && x.v in Pair(x);
    }
  }

  lemma {:induction false} EdgesWithin(nodes: seq<string>, rs: seq<InRelationship>)
    requires forall k :: 0 <= k < |rs| ==> rs[k].source in nodes && rs[k].target in nodes
    ensures EndpointsIn(nodes, EdgesOf(rs))
  {
    var es := EdgesOf(rs);
    EdgesFacts(rs);
    forall i | 0 <= i < |es| ensures es[i].u in nodes && es[i].v in nodes {
      var k :| 0 <= k < |rs| && {rs[k].source, rs[k].target} == Pair(es[i]);
      assert es[i].u in Pair(es[i]) && es[i].v in Pair(es[i]);
    }
  }

  lemma {:induction false} LinksAt(view: seq<MapEdge>)
    ensures forall i :: 0 <= i < |view| ==> LinksOf(view)[i] == LinkOf(view[i])
  {
    if view != [] {
      LinksAt(view[..|view| - 1]);
    }
  }

  // ---------------------------------------------------------------------------
  // Cluster centres.

  /** `mc` is what the map shows for the input cluster `c`: its id, name
      (the given one or `Cluster <id>`), members and their count, and the
      mean position of the nodes among its members, of which there is at
      least one. */
  predicate EmittedFrom(nodes: seq<MapNode>, c: InCluster, mc: MapCluster) {
    var cn := ClusterNodes(nodes, c.members);
    && mc.id == c.id && mc.name == ClusterName(c) && mc.members == c.members && mc.size == |c.members|
    && cn != [] && mc.center == Center(cn)
  }

  /** Some member of the cluster is a concept text. */
  predicate MentionsConcept(c: InCluster, cs: seq<InConcept>) {
    exists x :: x in c.members && x in InTexts(cs)
  }

  /** Some cluster of `cl` is what the map shows for `c`. */
  predicate Shown(nodes: seq<MapNode>, c: InCluster, cl: seq<MapCluster>) {
    exists j :: 0 <= j < |cl| && EmittedFrom(nodes, c, cl[j])
  }

  /** Every cluster shown comes from an input cluster with a member node. */
  lemma {:induction false} ClusterDataSources(nodes: seq<MapNode>, cls: seq<InCluster>)
    ensures forall j :: 0 <= j < |ClusterData(nodes, cls)| ==>
              exists k :: 0 <= k < |cls| && EmittedFrom(nodes, cls[k], ClusterData(nodes, cls)[j])
  {
    if cls != [] {
      var init := cls[..|cls| - 1];
      var c := cls[|cls| - 1];
      ClusterDataSources(nodes, init);
      var a := ClusterData(nodes, init);
      var r := ClusterData(nodes, cls);
      var cn := ClusterNodes(nodes, c.members);
      assert r == a + (if cn != [] then [MapCluster(c.id, ClusterName(c), c.members, Center(cn), |c.members|)] else []);
      forall j | 0 <= j < |r| ensures exists k :: 0 <= k < |cls| && EmittedFrom(nodes, cls[k], r[j]) {
        if j < |a| {
          var k :| 0 <= k < |init| && EmittedFrom(nodes, init[k], a[j]);
          assert cls[k] == init[k] && r[j] == a[j];
          assert EmittedFrom(nodes, cls[k], r[j]);
        } else {
          assert EmittedFrom(nodes, cls[|cls| - 1], r[j]);
        }
      }
    } else {
      assert ClusterData(nodes, cls) == [];
    }
  }

  /** Every input cluster with a member node is shown. */
  lemma ClusterDataComplete(nodes: seq<MapNode>, cls: seq<InCluster>)
    ensures forall k :: 0 <= k < |cls| && ClusterNodes(nodes, cls[k].members) != [] ==>
              Shown(nodes, cls[k], ClusterData(nodes, cls))
  {
    forall k | 0 <= k < |cls| && ClusterNodes(nodes, cls[k].members) != []
      ensures Shown(nodes, cls[k], ClusterData(nodes, cls))
    {
      ClusterShown(nodes, cls, k);
    }
  }

  lemma {:induction false} ClusterShown(nodes: seq<MapNode>, cls: seq<InCluster>, k: nat)
    requires k < |cls| && ClusterNodes(nodes, cls[k].members) != []
    ensures Shown(nodes, cls[k], ClusterData(nodes, cls))
    decreases |cls|
  {
    var init := cls[..|cls| - 1];
    var c := cls[|cls| - 1];
    var a := ClusterData(nodes, init);
    var cn := ClusterNodes(nodes, c.members);
    var tail := if cn != [] then [MapCluster(c.id, ClusterName(c), c.members, Center(cn), |c.members|)] else [];
    assert ClusterData(nodes, cls) == a + tail;
    if k < |init| {
      assert init[k] == cls[k];
      ClusterShown(nodes, init, k);
      AppendHalves(a, tail);
      ShownPrefix(nodes, cls[k], a, a + tail);
    } else {
      assert EmittedFrom(nodes, c, (a + tail)[|a|]);
    }
  }

  /** A cluster shown in a list is shown in any extension of it. */
  lemma ShownPrefix(nodes: seq<MapNode>, c: InCluster, a: seq<MapCluster>, r: seq<MapCluster>)
    requires |a| <= |r| && r[..|a|] == a
    requires Shown(nodes, c, a)
    ensures Shown(nodes, c, r)
  {
    var j :| 0 <= j < |a| && EmittedFrom(nodes, c, a[j]);
    assert r[j] == a[j];
  }

  lemma {:induction false} ClusterNodesFacts(nodes: seq<MapNode>, members: seq<string>)
    ensures forall n :: n in ClusterNodes(nodes, members) <==> n in nodes && n.id in members
  {
    if nodes != [] {
      ClusterNodesFacts(nodes[..|nodes| - 1], members);
      assert nodes == nodes[..|nodes| - 1] + [nodes[|nodes| - 1]];
    }
  }

  lemma {:induction false} NodeXsYsAt(ns: seq<MapNode>)
    ensures forall i :: 0 <= i < |ns| ==> NodeXs(ns)[i] == ns[i].x && NodeYs(ns)[i] == ns[i].y
  {
    if ns != [] {
      NodeXsYsAt(ns[..|ns| - 1]);
    }
  }

  /** The mean of positions in the unit square is in the unit square. */
  lemma CenterBounds(ns: seq<MapNode>)
    requires |ns| > 0
    requires forall i :: 0 <= i < |ns| ==> 0.0 <= ns[i].x <= 1.0 && 0.0 <= ns[i].y <= 1.0
    ensures 0.0 <= Center(ns).0 <= 1.0 && 0.0 <= Center(ns).1 <= 1.0
  {
    NodeXsYsAt(ns);
    MeanUnit(NodeXs(ns));
    MeanUnit(NodeYs(ns));
  }

  /** The mean of values in [0, 1] is in [0, 1]. */
  lemma MeanUnit(s: seq<real>)
    requires |s| > 0 && forall i :: 0 <= i < |s| ==> 0.0 <= s[i] <= 1.0
    ensures 0.0 <= Sum(s) / |s| as real <= 1.0
  {
    SumBounds(s, 0.0, 1.0);
    DivBounds(Sum(s), |s| as real);
  }

  /** A cluster has a member node exactly when one of its members is a
      concept text. */
  lemma ClusterHasNode(cs: seq<InConcept>, pos: seq<(real, real)>, sizes: seq<real>, members: seq<string>)
    requires Attributed(ConceptNodes(cs)) && |pos| == |ConceptNodes(cs)| && |sizes| == |ConceptNodes(cs)|
    ensures ClusterNodes(NodesOf(ConceptNodes(cs), pos, sizes), members) != [] <==>
              exists x :: x in members && x in InTexts(cs)
  {
    var ns := NodesOf(ConceptNodes(cs), pos, sizes);
    var ids := Dedup(InTexts(cs));
    NodeIdFacts(cs, pos, sizes);
    assert |ns| == |ids| && forall i :: 0 <= i < |ns| ==> ns[i].id == ids[i];
    ClusterHasId(ns, ids, members);
    DedupFacts(InTexts(cs));
    assert forall x :: x in ids <==> x in InTexts(cs);
  }

  /** Nodes whose ids are `ids`: some node is a member exactly when some
      member is one of the ids. */
  lemma ClusterHasId(ns: seq<MapNode>, ids: seq<string>, members: seq<string>)
    requires |ns| == |ids| && forall i :: 0 <= i < |ns| ==> ns[i].id == ids[i]
    ensures ClusterNodes(ns, members) != [] <==> exists x :: x in members && x in ids
  {
    ClusterNodesFacts(ns, members);
    if exists x :: x in members && x in ids {
      var x :| x in members && x in ids;
      var i :| 0 <= i < |ids| && ids[i] == x;
      assert ns[i] in ClusterNodes(ns, members);
    }
    if ClusterNodes(ns, members) != [] {
      var n := ClusterNodes(ns, members)[0];
      assert n in ClusterNodes(ns, members);
      var i :| 0 <= i < |ns| && ns[i] == n;
      assert n.id in members && n.id == ids[i];
    }
  }

  /** After a successful mapping, each cluster shown comes from an input
      cluster and has its centre in the unit square; an input cluster is
      shown exactly when some member is a concept text. */
  lemma {:induction false} MapClusters(input: MapInput, layout: seq<(real, real)>)
    requires LayoutFits(input, layout) && MapOf(input, layout).Success? && input.concepts != []
    ensures var m := MapOf(input, layout).value;
      && (forall j :: 0 <= j < |m.clusters| ==>
            (exists k :: 0 <= k < |input.clusters| && EmittedFrom(m.nodes, input.clusters[k], m.clusters[j]))
            && 0.0 <= m.clusters[j].center.0 <= 1.0 && 0.0 <= m.clusters[j].center.1 <= 1.0)
      && (forall k :: 0 <= k < |input.clusters| ==>
            (MentionsConcept(input.clusters[k], input.concepts) <==> Shown(m.nodes, input.clusters[k], m.clusters)))
  {
    MapSuccess(input, layout);
    var g := ConceptNodes(input.concepts);
    var imps := Importances(g);
    var m := MapOf(input, layout).value;
    assert m.nodes == NodesOf(g, NormalizedLayout(layout), Sizes(imps, imps));
    assert m.clusters == ClusterData(m.nodes, input.clusters);
    ClustersOver(input.concepts, layout, Sizes(imps, imps), input.clusters);
  }

  lemma {:induction false} ClustersOver(cs: seq<InConcept>, layout: seq<(real, real)>, sizes: seq<real>, cls: seq<InCluster>)
    requires Attributed(ConceptNodes(cs)) && |layout| == |ConceptNodes(cs)| && |sizes| == |ConceptNodes(cs)| && |layout| > 0
    ensures var ns := NodesOf(ConceptNodes(cs), NormalizedLayout(layout), sizes);
      var cl := ClusterData(ns, cls);
      && (forall j :: 0 <= j < |cl| ==>
            (exists k :: 0 <= k < |cls| && EmittedFrom(ns, cls[k], cl[j]))
            && 0.0 <= cl[j].center.0 <= 1.0 && 0.0 <= cl[j].center.1 <= 1.0)
      && (forall k :: 0 <= k < |cls| ==> (MentionsConcept(cls[k], cs) <==> Shown(ns, cls[k], cl)))
  {
    var ns := NodesOf(ConceptNodes(cs), NormalizedLayout(layout), sizes);
    NodePositionFacts(ConceptNodes(cs), layout, sizes);
    ClusterDataSources(ns, cls);
    ClusterCenters(ns, cls);
    ClustersShown(cs, NormalizedLayout(layout), sizes, cls);
  }

  lemma {:induction false} ClustersShown(cs: seq<InConcept>, pos: seq<(real, real)>, sizes: seq<real>, cls: seq<InCluster>)
    requires Attributed(ConceptNodes(cs)) && |pos| == |ConceptNodes(cs)| && |sizes| == |ConceptNodes(cs)|
    ensures var ns := NodesOf(ConceptNodes(cs), pos, sizes);
      forall k :: 0 <= k < |cls| ==> (MentionsConcept(cls[k], cs) <==> Shown(ns, cls[k], ClusterData(ns, cls)))
  {
    var ns := NodesOf(ConceptNodes(cs), pos, sizes);
    var cl := ClusterData(ns, cls);
    ClusterDataComplete(ns, cls);
    forall k | 0 <= k < |cls| ensures MentionsConcept(cls[k], cs) <==> Shown(ns, cls[k], cl) {
      ClusterHasNode(cs, pos, sizes, cls[k].members);
      if Shown(ns, cls[k], cl) {
        var j :| 0 <= j < |cl| && EmittedFrom(ns, cls[k], cl[j]);
        assert ClusterNodes(ns, cls[k].members) != [];
      }
    }
  }

  /** When every node is in the unit square, so is every cluster centre. */
  lemma {:induction false} ClusterCenters(nodes: seq<MapNode>, cls: seq<InCluster>)
    requires forall i :: 0 <= i < |nodes| ==> 0.0 <= nodes[i].x <= 1.0 && 0.0 <= nodes[i].y <= 1.0
    ensures forall j :: 0 <= j < |ClusterData(nodes, cls)| ==>
              0.0 <= ClusterData(nodes, cls)[j].center.0 <= 1.0 && 0.0 <= ClusterData(nodes, cls)[j].center.1 <= 1.0
  {
    var r := ClusterData(nodes, cls);
    ClusterDataSources(nodes, cls);
    forall j | 0 <= j < |r| ensures 0.0 <= r[j].center.0 <= 1.0 && 0.0 <= r[j].center.1 <= 1.0 {
      var k :| 0 <= k < |cls| && EmittedFrom(nodes, cls[k], r[j]);
      var cn := ClusterNodes(nodes, cls[k].members);
      ClusterNodesFacts(nodes, cls[k].members);
      forall i | 0 <= i < |cn| ensures 0.0 <= cn[i].x <= 1.0 && 0.0 <= cn[i].y <= 1.0 {
        assert cn[i] in cn;
      }
      CenterBounds(cn);
    }
  }
}
