/** The learning-journey generator's view of a knowledge map (journey.py).
    The map is read from JSON, so every field the generator reads with
    `.get(key, default)` is an option here, and the defaults are applied where
    the generator applies them. Three dictionaries are built from the map:
    the node dictionary keyed by id, the undirected adjacency lists of the
    links, and the hierarchy tree that `_is_descendant` searches. */
module JourneyMap {
  import opened Util

  /** A node: `id`, and the optional `type`, `importance` and `label` (here `caption`). */
  datatype JNode = JNode(id: string, ntype: Option<string>, importance: Option<real>, caption: Option<string>)

  /** A link: `source`, `target`, and the optional `weight` and `type`. */
  datatype JLink = JLink(source: string, target: string, weight: Option<real>, ltype: Option<string>)

  /** A cluster. A missing `concepts` list reads as `[]` and a missing
      `size` as `0`, and both behave exactly as those values wherever the
      generator reads them; a missing `id` is the `''` of `.get('id', '')`. */
  datatype JCluster = JCluster(id: Option<int>, concepts: seq<string>, size: real, name: Option<string>)

  /** `roots` and `tree`; a missing hierarchy is `{}`, that is no roots and an
      empty tree. A tree entry lists the `concept` of each child (a child
      without one reads as `''`). */
  datatype JHierarchy = JHierarchy(roots: seq<string>, tree: map<string, seq<string>>)

  datatype JMap = JMap(nodes: seq<JNode>, links: seq<JLink>, clusters: seq<JCluster>, hierarchy: JHierarchy)

  /** `link.get('weight', 1)` */
  function WeightOf(l: JLink): real { Or(l.weight, 1.0) }

  // ---------------------------------------------------------------------------
  // `nodes = {node['id']: node for node in knowledge_map.get('nodes', [])}`

  /** A dictionary from node id to node: the keys in insertion order. */
  datatype NodeIndex = NodeIndex(order: seq<string>, at: map<string, JNode>)

  ghost predicate Valid(n: NodeIndex) {
    Distinct(n.order) && forall x :: x in n.order <==> x in n.at
  }

  /** `nodes[node['id']] = node`: a new key goes last, an old one keeps its
      place and takes the new value. */
  function Stored(n: NodeIndex, node: JNode): NodeIndex {
    NodeIndex(if node.id in n.at then n.order else n.order + [node.id], n.at[node.id := node])
  }

  function Indexed(ns: seq<JNode>): NodeIndex {
    if ns == [] then NodeIndex([], map[]) else Stored(Indexed(ns[..|ns| - 1]), ns[|ns| - 1])
  }

  function NodeIds(ns: seq<JNode>): seq<string> {
    if ns == [] then [] else NodeIds(ns[..|ns| - 1]) + [ns[|ns| - 1].id]
  }

  method IndexNodes(ns: seq<JNode>) returns (nodes: NodeIndex)
    ensures nodes == Indexed(ns)
  {
    nodes := NodeIndex([], map[]);
    for k := 0 to |ns|
      invariant nodes == Indexed(ns[..k])
    {
      assert ns[..k + 1][..k] == ns[..k];
      var node := ns[k];
      if node.id !in nodes.at {
        nodes := NodeIndex(nodes.order + [node.id], nodes.at);
      }
      nodes := NodeIndex(nodes.order, nodes.at[node.id := node]);
    }
    assert ns[..|ns|] == ns;
  }

  /** The keys are the ids in order of first occurrence, each once. */
  lemma {:induction false} IndexedOrder(ns: seq<JNode>)
    ensures Valid(Indexed(ns))
    ensures Indexed(ns).order == Dedup(NodeIds(ns))
  {
    if ns != [] {
      var init := ns[..|ns| - 1];
      var node := ns[|ns| - 1];
      IndexedOrder(init);
      DedupFacts(NodeIds(init));
      assert NodeIds(ns) == NodeIds(init) + [node.id];
      DedupSnoc(NodeIds(init), node.id);
      var n := Indexed(init);
      if node.id !in n.at {
        DistinctSnoc(n.order, node.id);
      }
    }
  }

  /** Every id of the list is a key, and each key maps to the last node that
      has it. */
  lemma {:induction false} IndexedValues(ns: seq<JNode>)
    ensures forall i :: 0 <= i < |ns| ==> ns[i].id in Indexed(ns).at
    ensures forall x :: x in Indexed(ns).at ==> LastWith(ns, x, Indexed(ns).at[x])
  {
    if ns != [] {
      var init := ns[..|ns| - 1];
      var node := ns[|ns| - 1];
      IndexedValues(init);
      var n := Indexed(init);
      var r := Indexed(ns);
      assert r.at == n.at[node.id := node];
      forall i | 0 <= i < |ns| ensures ns[i].id in r.at {
        if i < |init| {
          assert init[i] == ns[i];
        }
      }
      forall x | x in r.at ensures LastWith(ns, x, r.at[x]) {
        if x == node.id {
          assert ns[|ns| - 1] == r.at[x];
        } else {
          assert LastWith(init, x, n.at[x]);
          var i :| 0 <= i < |init| && init[i] == n.at[x] && init[i].id == x && forall j :: i < j < |init| ==> init[j].id != x;
          assert ns[i] == r.at[x];
          forall j | i < j < |ns| ensures ns[j].id != x {
            if j < |init| {
              assert init[j] == ns[j];
            }
          }
        }
      }
    }
  }

  /** `node` is the last node of the list whose id is `x`. */
  ghost predicate LastWith(ns: seq<JNode>, x: string, node: JNode) {
    exists i :: 0 <= i < |ns| && ns[i] == node && ns[i].id == x && forall j :: i < j < |ns| ==> ns[j].id != x
  }

  // ---------------------------------------------------------------------------
  // The adjacency lists: `graph[source].append((target, weight))` and
  // `graph[target].append((source, weight))` for every link.

  type Adjacency = map<string, seq<(string, real)>>

  /** `graph.get(x, [])` */
  function AdjOf(g: Adjacency, x: string): seq<(string, real)> {
    if x in g then g[x] else []
  }

  function Linked(g: Adjacency, l: JLink): Adjacency {
    var g1 := g[l.source := AdjOf(g, l.source) + [(l.target, WeightOf(l))]];
    g1[l.target := AdjOf(g1, l.target) + [(l.source, WeightOf(l))]]
  }

  function GraphOf(links: seq<JLink>): Adjacency {
    if links == [] then map[] else Linked(GraphOf(links[..|links| - 1]), links[|links| - 1])
  }

  method BuildGraph(links: seq<JLink>) returns (graph: Adjacency)
    ensures graph == GraphOf(links)
  {
    graph := map[];
    for k := 0 to |links|
      invariant graph == GraphOf(links[..k])
    {
      assert links[..k + 1][..k] == links[..k];
      var link := links[k];
      var weight := if link.weight.Some? then link.weight.value else 1.0;
      graph := graph[link.source := AdjOf(graph, link.source) + [(link.target, weight)]];
      graph := graph[link.target := AdjOf(graph, link.target) + [(link.source, weight)]];
    }
    assert links[..|links|] == links;
  }

  /** The other end and the weight of every link at `x`, in link order; a
      self-loop at `x` is listed twice. */
  function Neighbours(links: seq<JLink>, x: string): seq<(string, real)> {
    if links == [] then []
    else
      var l := links[|links| - 1];
      Neighbours(links[..|links| - 1], x)
        + (if l.source == x then [(l.target, WeightOf(l))] else [])
        + (if l.target == x then [(l.source, WeightOf(l))] else [])
  }

  /** The adjacency list of `x` is the list of its links' other ends. */
  lemma {:induction false} GraphNeighbours(links: seq<JLink>, x: string)
    ensures AdjOf(GraphOf(links), x) == Neighbours(links, x)
  {
    if links != [] {
      GraphNeighbours(links[..|links| - 1], x);
    }
  }

  /** The link `l` joins `x` and `y` in one direction or the other. */
  predicate Joins(l: JLink, x: string, y: string) {
    (l.source == x && l.target == y) || (l.target == x && l.source == y)
  }

  /** `y` is listed with weight `w` at `x` exactly when a link of weight `w`
      joins them. */
  lemma {:induction false} NeighboursFacts(links: seq<JLink>, x: string)
    ensures forall y, w :: (y, w) in Neighbours(links, x) <==>
      exists i :: 0 <= i < |links| && Joins(links[i], x, y) && WeightOf(links[i]) == w
  {
    if links != [] {
      var init := links[..|links| - 1];
      NeighboursFacts(init, x);
      forall y, w ensures (y, w) in Neighbours(links, x) <==>
        exists i :: 0 <= i < |links| && Joins(links[i], x, y) && WeightOf(links[i]) == w
      {
        if (y, w) in Neighbours(init, x) {
          var i :| 0 <= i < |init| && Joins(init[i], x, y) && WeightOf(init[i]) == w;
          assert links[i] == init[i];
        }
        if exists i :: 0 <= i < |links| && Joins(links[i], x, y) && WeightOf(links[i]) == w {
          var i :| 0 <= i < |links| && Joins(links[i], x, y) && WeightOf(links[i]) == w;
          if i < |init| {
            assert init[i] == links[i];
          }
        }
      }
    }
  }

  /** The adjacency lists are symmetric: `y` is a neighbour of `x` with
      weight `w` exactly when `x` is one of `y` with the same weight. */
  lemma GraphSymmetric(links: seq<JLink>, x: string, y: string, w: real)
    ensures (y, w) in AdjOf(GraphOf(links), x) <==> (x, w) in AdjOf(GraphOf(links), y)
  {
    GraphNeighbours(links, x);
    GraphNeighbours(links, y);
    NeighboursFacts(links, x);
    NeighboursFacts(links, y);
    if (y, w) in Neighbours(links, x) {
      var i :| 0 <= i < |links| && Joins(links[i], x, y) && WeightOf(links[i]) == w;
      assert Joins(links[i], y, x);
    }
    if (x, w) in Neighbours(links, y) {
      var i :| 0 <= i < |links| && Joins(links[i], y, x) && WeightOf(links[i]) == w;
      assert Joins(links[i], x, y);
    }
  }

  // ---------------------------------------------------------------------------
  // The hierarchy tree.

  /** `_get_children_from_tree`: the listed children, `[]` for a concept
      that is not a key. */
  function ChildrenOf(tree: map<string, seq<string>>, c: string): seq<string> {
    if c in tree then tree[c] else []
  }

  /** What `_is_descendant` does: return `True`, return `False`, or recurse
      without end (a `RecursionError`). */
  datatype Descent = Yes | No | Loops

  /** `_is_descendant(c, r, tree)` evaluated while the calls for the
      concepts in `chain` are still running. A call for a concept already in
      the chain repeats that call exactly, so it never returns. The chain
      only holds keys of the tree, which bounds the recursion. */
  function Descendant(c: string, r: string, tree: map<string, seq<string>>, chain: set<string>): Descent
    decreases |tree.Keys - chain|, 0, 0
  {
    if c == r then Yes
    else if r in chain then Loops
    else if r !in tree then No
    else
      Shrinks(tree.Keys, chain, r);
      Scan(c, tree[r], 0, tree, chain + {r})
  }

  lemma Shrinks(keys: set<string>, chain: set<string>, r: string)
    requires r in keys && r !in chain
    ensures |keys - (chain + {r})| < |keys - chain|
  {
    assert keys - chain == (keys - (chain + {r})) + {r};
  }

  /** The loop over the children of a root, from position `i`. */
  function Scan(c: string, kids: seq<string>, i: nat, tree: map<string, seq<string>>, chain: set<string>): Descent
    decreases |tree.Keys - chain|, 1, |kids| - i
  {
    if i >= |kids| then No
    else if c == kids[i] then Yes
    else
      match Descendant(c, kids[i], tree, chain)
      case Yes => Yes
      case Loops => Loops
      case No => Scan(c, kids, i + 1, tree, chain)
  }

  function IsDescendant(c: string, r: string, tree: map<string, seq<string>>): Descent {
    Descendant(c, r, tree, {})
  }

  /** No concept listed as a child is itself a key of the tree: the shape
      the extractor produces, whose keys are the roots and whose roots are
      nobody's children. */
  predicate RootsOnly(tree: map<string, seq<string>>) {
    forall k, x :: k in tree && x in tree[k] ==> x !in tree
  }

  /** Over such a tree `_is_descendant` always returns, and it tests whether
      the concept is the root or one of the root's listed children. */
  lemma DescendantOfRoot(c: string, r: string, tree: map<string, seq<string>>)
    requires RootsOnly(tree)
    ensures IsDescendant(c, r, tree) == if c == r || c in ChildrenOf(tree, r) then Yes else No
  {
    if c != r && r in tree {
      var none: set<string> := {};
      assert none + {r} == {r};
      assert IsDescendant(c, r, tree) == Scan(c, tree[r], 0, tree, {r});
      ScanLeaves(c, tree[r], 0, tree, {r});
      assert tree[r][0..] == tree[r];
    }
  }

  lemma {:induction false} ScanLeaves(c: string, kids: seq<string>, i: nat, tree: map<string, seq<string>>, chain: set<string>)
    requires RootsOnly(tree) && chain <= tree.Keys && i <= |kids|
    requires forall x :: x in kids ==> x !in tree
    ensures Scan(c, kids, i, tree, chain) == if c in kids[i..] then Yes else No
    decreases |kids| - i
  {
    if i < |kids| {
      assert kids[i..] == [kids[i]] + kids[i + 1..];
      if c != kids[i] {
        assert kids[i] !in chain;
        ScanLeaves(c, kids, i + 1, tree, chain);
      }
    }
  }
}
