/** The four path builders of journey.py. Each grows a `path` list and a
    `visited` set; an append is always guarded by `visited` or draws from
    nodes that are not visited yet, so no path has a duplicate. The random
    parts (`random.sample`, `random.choice`) read an arbitrary `draw`
    function, so what is proved holds for every outcome of the generator. */
module JourneyPaths {
  import opened Util
  import opened JourneyMap

  /** The key an adjacency entry, connection or candidate is sorted by. */
  function Weight(e: (string, real)): real { e.1 }

  /** Some entry of `es` is about `x`. */
  predicate NamedIn(x: string, es: seq<(string, real)>) {
    exists i :: 0 <= i < |es| && es[i].0 == x
  }

  function Abs(r: real): real { if r < 0.0 then -r else r }

  // ---------------------------------------------------------------------------
  // `random.sample(pool, k)`: `k` picks without replacement, pick `j` taking
  // position `draw(j) % n` of the `n` elements not picked yet.

  function Sample<T>(pool: seq<T>, k: nat, draw: nat -> nat, j: nat): seq<T>
    requires k <= |pool|
    decreases k
  {
    if k == 0 then []
    else
      var i := draw(j) % |pool|;
      [pool[i]] + Sample(pool[..i] + pool[i + 1..], k - 1, draw, j + 1)
  }

  /** A sample has `k` elements, all from the pool, and of a pool without
      duplicates it has none either. */
  lemma {:induction false} SampleFacts<T>(pool: seq<T>, k: nat, draw: nat -> nat, j: nat)
    requires k <= |pool|
    ensures |Sample(pool, k, draw, j)| == k
    ensures forall x :: x in Sample(pool, k, draw, j) ==> x in pool
    ensures Distinct(pool) ==> Distinct(Sample(pool, k, draw, j))
    decreases k
  {
    if k > 0 {
      var i := draw(j) % |pool|;
      var rest := pool[..i] + pool[i + 1..];
      SampleFacts(rest, k - 1, draw, j + 1);
      var s := Sample(rest, k - 1, draw, j + 1);
      assert Sample(pool, k, draw, j) == [pool[i]] + s;
      assert forall x :: x in rest ==> x in pool;
      if Distinct(pool) {
        forall a, b | 0 <= a < b < |rest| ensures rest[a] != rest[b] {
          var a' := if a < i then a else a + 1;
          var b' := if b < i then b else b + 1;
          assert rest[a] == pool[a'] && rest[b] == pool[b'];
        }
        assert pool[i] !in rest by {
          forall a | 0 <= a < |rest| ensures rest[a] != pool[i] {
            var a' := if a < i then a else a + 1;
            assert rest[a] == pool[a'];
          }
        }
        DistinctAppend([pool[i]], s);
      }
    }
  }

  // ---------------------------------------------------------------------------
  // Padding with concepts of similar importance (lines 253-269 and 328-343).

  /** `nodes.get(start_concept, {}).get('importance', 0.5)` */
  function StartImportance(nodes: NodeIndex, start: string): real {
    if start in nodes.at then Or(nodes.at[start].importance, 0.5) else 0.5
  }

  /** A node whose importance, a missing one read as 0, is within 0.2 of the
      start's. */
  predicate Similar(nodes: NodeIndex, start: string, x: string) {
    x in nodes.at && Abs(Or(nodes.at[x].importance, 0.0) - StartImportance(nodes, start)) < 0.2
  }

  /** The nodes of `order` that are not on `path` and are of similar
      importance, in that order. */
  function SimilarOf(order: seq<string>, nodes: NodeIndex, start: string, path: seq<string>): seq<string> {
    if order == [] then []
    else
      var r := SimilarOf(order[..|order| - 1], nodes, start, path);
      var x := order[|order| - 1];
      if x !in path && Similar(nodes, start, x) then r + [x] else r
  }

  /** The padded path: while it is shorter than 5, `min(3, n)` of the `n`
      unvisited similar nodes are sampled and appended until it reaches 5. */
  function Padded(path: seq<string>, nodes: NodeIndex, start: string, draw: nat -> nat): seq<string> {
    if |path| >= 5 then path
    else
      var s := SimilarOf(nodes.order, nodes, start, path);
      path + Take(Sample(s, Min(3, |s|), draw, 0), 5 - |path|)
  }

  /** The length of the padded path, whatever the generator draws. */
  function PadCount(path: seq<string>, nodes: NodeIndex, start: string): nat {
    if |path| >= 5 then |path|
    else Min(5, |path| + Min(3, |SimilarOf(nodes.order, nodes, start, path)|))
  }

  /** `similar_concepts`: the unvisited nodes of similar importance, in node
      order; `path` is the list `visited` mirrors. */
  method SimilarConcepts(nodes: NodeIndex, start: string, visited: set<string>, ghost path: seq<string>)
    returns (similar: seq<string>)
    requires Valid(nodes) && forall x :: x in visited <==> x in path
    ensures Distinct(similar)
    ensures forall x :: x in similar <==> x !in visited && Similar(nodes, start, x)
    ensures similar == SimilarOf(nodes.order, nodes, start, path)
  {
    var imp := StartImportance(nodes, start);
    similar := [];
    for k := 0 to |nodes.order|
      invariant similar == SimilarOf(nodes.order[..k], nodes, start, path)
    {
      var id := nodes.order[k];
      assert nodes.order[..k + 1][..k] == nodes.order[..k];
      var node := nodes.at[id];
      if id !in visited && Abs(Or(node.importance, 0.0) - imp) < 0.2 {
        similar := similar + [id];
      }
    }
    assert nodes.order[..|nodes.order|] == nodes.order;
    SimilarOfFacts(nodes.order, nodes, start, path);
  }

  /** The similar nodes are distinct and are exactly the nodes of `order`
      off the path of similar importance. */
  lemma {:induction false} SimilarOfFacts(order: seq<string>, nodes: NodeIndex, start: string, path: seq<string>)
    requires Distinct(order)
    ensures Distinct(SimilarOf(order, nodes, start, path))
    ensures forall x :: x in SimilarOf(order, nodes, start, path) <==> x in order && x !in path && Similar(nodes, start, x)
  {
    if order != [] {
      var init := order[..|order| - 1];
      var x := order[|order| - 1];
      InitLast(order);
      assert Distinct(init) by {
        forall i, j | 0 <= i < j < |init| ensures init[i] != init[j] {
          assert init[i] == order[i] && init[j] == order[j];
        }
      }
      SimilarOfFacts(init, nodes, start, path);
      var r0 := SimilarOf(init, nodes, start, path);
      forall y | y in order ensures y in init || y == x {
      }
      if x !in path && Similar(nodes, start, x) {
        assert x !in init by {
          forall j | 0 <= j < |init| ensures init[j] != x {
            assert init[j] == order[j];
          }
        }
        DistinctSnoc(r0, x);
      }
    }
  }

  /** While the path is shorter than 5, up to three randomly sampled nodes
      of similar importance that are not on it yet. */
  method PadSimilar(path: seq<string>, visited: set<string>, nodes: NodeIndex, start: string, draw: nat -> nat)
    returns (padded: seq<string>)
    requires Valid(nodes) && Distinct(path)
    requires forall x :: x in visited <==> x in path
    ensures Distinct(padded)
    ensures |path| <= |padded| && padded[..|path|] == path
    ensures |path| >= 5 ==> padded == path
    ensures |path| < 5 ==> |padded| <= 5
    ensures forall i :: |path| <= i < |padded| ==> Similar(nodes, start, padded[i])
    ensures padded == Padded(path, nodes, start, draw)
    ensures |padded| == PadCount(path, nodes, start)
  {
    padded := path;
    if |path| < 5 {
      var similar := SimilarConcepts(nodes, start, visited, path);
      var picks := Sample(similar, Min(3, |similar|), draw, 0);
      padded := TopUp(path, picks);
      SampleFacts(similar, Min(3, |similar|), draw, 0);
      PadFacts(path, visited, nodes, start, similar, picks, |padded| - |path|);
      assert picks[..|padded| - |path|] == Take(picks, 5 - |path|);
    }
  }

  /** Appends the picks one by one while the path is shorter than 5. */
  method TopUp(path: seq<string>, picks: seq<string>) returns (padded: seq<string>)
    ensures |path| <= |padded| <= |path| + |picks|
    ensures padded == path + picks[..|padded| - |path|]
    ensures |path| >= 5 ==> padded == path
    ensures |path| < 5 ==> |padded| == Min(5, |path| + |picks|)
  {
    padded := path;
    for i := 0 to |picks|
      invariant |path| <= |padded|
      invariant |padded| - |path| <= i
      invariant |padded| < 5 ==> |padded| - |path| == i
      invariant |path| >= 5 ==> padded == path
      invariant |path| < 5 ==> |padded| <= 5
      invariant padded == path + picks[..|padded| - |path|]
    {
      if |padded| < 5 {
        assert picks[..i + 1] == picks[..i] + [picks[i]];
        padded := padded + [picks[i]];
      }
    }
  }

  /** The path followed by the first `n` picks, all drawn from the unvisited
      similar nodes, repeats no node and ends in similar nodes. */
  lemma PadFacts(path: seq<string>, visited: set<string>, nodes: NodeIndex, start: string,
                 similar: seq<string>, picks: seq<string>, n: nat)
    requires Distinct(path) && forall x :: x in visited <==> x in path
    requires forall x :: x in similar <==> x !in visited && Similar(nodes, start, x)
    requires Distinct(picks) && (forall x :: x in picks ==> x in similar) && n <= |picks|
    ensures Distinct(path + picks[..n])
    ensures forall i :: |path| <= i < |path| + n ==> Similar(nodes, start, (path + picks[..n])[i])
  {
    var added := picks[..n];
    var padded := path + added;
    assert forall x :: x in added ==> x in picks;
    DistinctAppend(path, added);
    forall i | |path| <= i < |padded| ensures Similar(nodes, start, padded[i]) {
      assert padded[i] == added[i - |path|];
    }
  }

  /** The concept of each entry. */
  function Names(es: seq<(string, real)>): (r: seq<string>)
    ensures |r| == |es|
    ensures forall i :: 0 <= i < |es| ==> r[i] == es[i].0
  {
    seq(|es|, i requires 0 <= i < |es| => es[i].0)
  }

  lemma NamesNamed(es: seq<(string, real)>)
    ensures forall x :: x in Names(es) <==> NamedIn(x, es)
  {
    forall x ensures x in Names(es) <==> NamedIn(x, es) {
      if x in Names(es) {
        var i :| 0 <= i < |es| && Names(es)[i] == x;
      }
      if NamedIn(x, es) {
        var i :| 0 <= i < |es| && es[i].0 == x;
        assert Names(es)[i] == x;
      }
    }
  }

  /** The names not in `seen`, each once, in order of first occurrence. */
  function Fresh(names: seq<string>, seen: seq<string>): seq<string> {
    if names == [] then []
    else
      var f := Fresh(names[..|names| - 1], seen);
      var c := names[|names| - 1];
      if c in seen || c in f then f else f + [c]
  }

  /** How many more concepts a path may take before it reaches `limit`. */
  function Room(path: seq<string>, limit: nat): nat {
    if |path| < limit then limit - |path| else 0
  }

  /** `path` followed by the new names, in order, as long as it is shorter
      than `limit`. */
  function Grow(path: seq<string>, names: seq<string>, limit: nat): seq<string> {
    path + Take(Fresh(names, path), Room(path, limit))
  }

  /** The new names are exactly the names not seen, each once. */
  lemma {:induction false} FreshFacts(names: seq<string>, seen: seq<string>)
    ensures Distinct(Fresh(names, seen)) && |Fresh(names, seen)| <= |names|
    ensures forall x :: x in Fresh(names, seen) <==> x in names && x !in seen
  {
    if names != [] {
      var init := names[..|names| - 1];
      var c := names[|names| - 1];
      FreshFacts(init, seen);
      InitLast(names);
      var f := Fresh(init, seen);
      if !(c in seen || c in f) {
        DistinctSnoc(f, c);
      }
      forall x ensures x in Fresh(names, seen) <==> x in names && x !in seen {
        assert x in names <==> x in init || x == c;
      }
    }
  }

  /** A grown path has no duplicate, begins with the path, adds only new
      names, and holds every name when they all fit. */
  lemma GrowFacts(path: seq<string>, names: seq<string>, limit: nat)
    requires Distinct(path)
    ensures var g := Grow(path, names, limit);
      && Distinct(g) && |path| <= |g| <= |path| + |names| && g[..|path|] == path
      && (|path| <= limit ==> |g| <= limit)
      && (|path| >= limit ==> g == path)
      && (forall j :: |path| <= j < |g| ==> g[j] in names && g[j] !in path)
      && (|path| + |names| <= limit ==> forall x :: x in names ==> x in g)
  {
    GrowShape(path, names, limit);
    GrowFrom(path, names, limit);
    if |path| + |names| <= limit {
      GrowAll(path, names, limit, Grow(path, names, limit));
    }
  }

  lemma GrowShape(path: seq<string>, names: seq<string>, limit: nat)
    requires Distinct(path)
    ensures var g := Grow(path, names, limit);
      && Distinct(g) && |path| <= |g| <= |path| + |names| && g[..|path|] == path
      && (|path| <= limit ==> |g| <= limit)
      && (|path| >= limit ==> g == path)
  {
    var f := Fresh(names, path);
    var t := Take(f, Room(path, limit));
    FreshFacts(names, path);
    assert forall x :: x in t ==> x in f;
    DistinctAppend(path, t);
    AppendHalves(path, t);
  }

  lemma GrowFrom(path: seq<string>, names: seq<string>, limit: nat)
    ensures var g := Grow(path, names, limit);
      forall j :: |path| <= j < |g| ==> g[j] in names && g[j] !in path
  {
    var f := Fresh(names, path);
    var t := Take(f, Room(path, limit));
    FreshFacts(names, path);
    forall j | |path| <= j < |path + t| ensures (path + t)[j] in names && (path + t)[j] !in path {
      assert (path + t)[j] == t[j - |path|] == f[j - |path|];
    }
  }

  /** When all the names fit under the limit, every one of them ends up on
      the grown path. */
  lemma GrowAll(path: seq<string>, names: seq<string>, limit: nat, g: seq<string>)
    requires |path| + |names| <= limit && g == Grow(path, names, limit)
    ensures forall x :: x in names ==> x in g
  {
    var f := Fresh(names, path);
    FreshFacts(names, path);
    assert Take(f, Room(path, limit)) == f;
    forall x | x in names ensures x in path + f {
      if x !in path {
        assert x in f;
      }
    }
  }

  /** One turn of the guarded-append loop extends the grown path by the
      next name exactly when it is new and there is room. */
  lemma GrowStep(path: seq<string>, names: seq<string>, limit: nat, i: nat)
    requires i < |names|
    ensures var longer := Grow(path, names[..i], limit);
      Grow(path, names[..i + 1], limit) ==
        if names[i] !in longer && |longer| < limit then longer + [names[i]] else longer
  {
    var c := names[i];
    var f := Fresh(names[..i], path);
    var room := Room(path, limit);
    var t := Take(f, room);
    var longer := path + t;
    assert names[..i + 1][..i] == names[..i];
    assert Fresh(names[..i + 1], path) == if c in path || c in f then f else f + [c];
    assert c in longer <==> c in path || c in t;
    if c !in longer && |longer| < limit {
      assert t == f;
      assert Take(f + [c], room) == f + [c];
      AppendAssoc(path, f, [c]);
    } else if c in path || c in f {
    } else {
      assert |f| >= room;
      assert Take(f + [c], room) == t;
    }
  }

  /** The loop shape every builder uses: `for c in names: if c not in
      visited and len(path) < limit: path.append(c); visited.add(c)`. The
      names are appended in order, each once, while the path is shorter than
      the limit; every name is on the result unless the limit cut it off. */
  method AppendNew(path: seq<string>, visited: set<string>, names: seq<string>, limit: nat)
    returns (longer: seq<string>, seen: set<string>)
    requires Distinct(path) && forall x :: x in visited <==> x in path
    ensures Distinct(longer) && forall x :: x in seen <==> x in longer
    ensures |path| <= |longer| <= |path| + |names| && longer[..|path|] == path
    ensures |path| <= limit ==> |longer| <= limit
    ensures |path| >= limit ==> longer == path
    ensures forall j :: |path| <= j < |longer| ==> longer[j] in names
    ensures |path| + |names| <= limit ==> forall x :: x in names ==> x in longer
    ensures longer == Grow(path, names, limit)
  {
    longer, seen := path, visited;
    assert names[..0] == [];
    for i := 0 to |names|
      invariant longer == Grow(path, names[..i], limit)
      invariant forall x :: x in seen <==> x in longer
    {
      var c := names[i];
      GrowStep(path, names, limit, i);
      if c !in seen && |longer| < limit {
        longer := longer + [c];
        seen := seen + {c};
      }
    }
    assert names[..|names|] == names;
    GrowFacts(path, names, limit);
  }

  // ---------------------------------------------------------------------------
  // `_generate_default_path`

  /** `graph.get(start, [])` sorted by weight, heaviest first, its first 3. */
  function TopNeighbours(graph: Adjacency, start: string): seq<(string, real)> {
    Take(SortDesc(AdjOf(graph, start), Weight), 3)
  }

  /** A path that is `base` padded as the pad step does: `base` first, then
      as many nodes of similar importance as `PadCount` says. */
  ghost predicate PadShaped(path: seq<string>, base: seq<string>, nodes: NodeIndex, start: string) {
    && |base| <= |path| && path[..|base|] == base
    && |path| == PadCount(base, nodes, start)
    && forall i :: |base| <= i < |path| ==> Similar(nodes, start, path[i])
  }

  /** The default path before padding: the start, then its three heaviest
      neighbours in order, each once. */
  function DefaultBase(start: string, graph: Adjacency): seq<string> {
    Grow([start], Names(TopNeighbours(graph, start)), 4)
  }

  /** The start first, at most 5 concepts, none twice; the three heaviest
      neighbours of the start are all on it, in order, and everything else
      is a node of similar importance. */
  ghost predicate DefaultShaped(path: seq<string>, start: string, nodes: NodeIndex, graph: Adjacency) {
    && 1 <= |path| <= 5 && path[0] == start && Distinct(path)
    && (forall i :: 0 <= i < |TopNeighbours(graph, start)| ==> TopNeighbours(graph, start)[i].0 in path)
    && (forall x :: x in path ==> x == start || NamedIn(x, TopNeighbours(graph, start)) || Similar(nodes, start, x))
    && PadShaped(path, DefaultBase(start, graph), nodes, start)
  }

  method DefaultPath(start: string, nodes: NodeIndex, graph: Adjacency, draw: nat -> nat) returns (path: seq<string>)
    requires Valid(nodes)
    ensures DefaultShaped(path, start, nodes, graph)
  {
    var top := TopNeighbours(graph, start);
    // The source's loop has no length guard; with at most three neighbours
    // after the start the limit of 4 is never reached.
    var visited;
    path, visited := AppendNew([start], {start}, Names(top), 4);
    var before := path;
    path := PadSimilar(path, visited, nodes, start, draw);
    DefaultFacts(before, path, start, nodes, graph);
  }

  /** The base grown from the heaviest neighbours, padded, is a default
      path. */
  lemma DefaultFacts(before: seq<string>, path: seq<string>, start: string, nodes: NodeIndex, graph: Adjacency)
    requires before == DefaultBase(start, graph)
    requires Distinct(path) && |before| <= |path| && path[..|before|] == before
    requires |path| == PadCount(before, nodes, start)
    requires forall i :: |before| <= i < |path| ==> Similar(nodes, start, path[i])
    ensures DefaultShaped(path, start, nodes, graph)
  {
    var top := TopNeighbours(graph, start);
    DefaultBaseFacts(start, top);
    assert path[0] == before[0];
    BaseProvenance(before, path, start, Names(top), nodes);
    NamesNamed(top);
  }

  /** The unpadded default path: the start, then at most three new concepts,
      every neighbour among them. */
  lemma DefaultBaseFacts(start: string, top: seq<(string, real)>)
    requires |top| <= 3
    ensures var b := Grow([start], Names(top), 4);
      && 1 <= |b| <= 4 && b[0] == start
      && (forall j :: 1 <= j < |b| ==> b[j] in Names(top))
      && (forall j :: 0 <= j < |top| ==> top[j].0 in b)
  {
    GrowFacts([start], Names(top), 4);
    var b := Grow([start], Names(top), 4);
    assert b[0] == b[..1][0];
    forall j | 0 <= j < |top| ensures top[j].0 in b {
      assert top[j].0 == Names(top)[j];
    }
  }

  /** Every concept of a padded path whose base is the start followed by
      some of `names` is the start, one of `names` or a similar node. */
  lemma BaseProvenance(before: seq<string>, path: seq<string>, start: string, names: seq<string>, nodes: NodeIndex)
    requires 1 <= |before| <= |path| && before[0] == start && path[..|before|] == before
    requires forall j :: 1 <= j < |before| ==> before[j] in names
    requires forall i :: |before| <= i < |path| ==> Similar(nodes, start, path[i])
    ensures forall x :: x in before ==> x in path
    ensures forall x :: x in path ==> x == start || x in names || Similar(nodes, start, x)
  {
    forall x | x in path ensures x == start || x in names || Similar(nodes, start, x) {
      var i :| 0 <= i < |path| && path[i] == x;
      if 1 <= i < |before| {
        assert x == before[i];
      }
    }
    forall x | x in before ensures x in path {
      var i :| 0 <= i < |before| && before[i] == x;
      assert path[i] == x;
    }
  }

  // ---------------------------------------------------------------------------
  // `_generate_pattern_based_path`

  function SizeOf(c: JCluster): real { c.size }

  /** `max(start_clusters, key=lambda c: c.get('size', 0))`: the first of
      the largest clusters that list the start. */
  ghost predicate Primary(clusters: seq<JCluster>, start: string, k: nat) {
    && k < |clusters| && start in clusters[k].concepts
    && forall j :: 0 <= j < |clusters| && start in clusters[j].concepts ==>
         clusters[j].size <= clusters[k].size && (j < k ==> clusters[j].size < clusters[k].size)
  }

  /** `start_clusters`, with the position of each in `clusters`. */
  method StartClusters(clusters: seq<JCluster>, start: string) returns (found: seq<JCluster>, ghost idx: seq<nat>)
    ensures |idx| == |found|
    ensures forall t :: 0 <= t < |found| ==> idx[t] < |clusters| && found[t] == clusters[idx[t]]
    ensures forall t, u :: 0 <= t < u < |found| ==> idx[t] < idx[u]
    ensures forall t :: 0 <= t < |found| ==> start in found[t].concepts
    ensures forall j :: 0 <= j < |clusters| && start in clusters[j].concepts ==> j in idx
  {
    found := [];
    idx := [];
    for k := 0 to |clusters|
      invariant |idx| == |found|
      invariant forall t :: 0 <= t < |found| ==> idx[t] < k && found[t] == clusters[idx[t]]
      invariant forall t, u :: 0 <= t < u < |found| ==> idx[t] < idx[u]
      invariant forall t :: 0 <= t < |found| ==> start in found[t].concepts
      invariant forall j :: 0 <= j < k && start in clusters[j].concepts ==> j in idx
    {
      if start in clusters[k].concepts {
        found := found + [clusters[k]];
        idx := idx + [k];
      }
    }
  }

  lemma PrimaryChosen(clusters: seq<JCluster>, start: string, found: seq<JCluster>, idx: seq<nat>, t: nat)
    requires |idx| == |found| && t < |found|
    requires forall t :: 0 <= t < |found| ==> idx[t] < |clusters| && found[t] == clusters[idx[t]]
    requires forall t, u :: 0 <= t < u < |found| ==> idx[t] < idx[u]
    requires forall t :: 0 <= t < |found| ==> start in found[t].concepts
    requires forall j :: 0 <= j < |clusters| && start in clusters[j].concepts ==> j in idx
    requires t == ArgMax(found, SizeOf)
    ensures Primary(clusters, start, idx[t])
  {
    forall j | 0 <= j < |clusters| && start in clusters[j].concepts
      ensures clusters[j].size <= clusters[idx[t]].size && (j < idx[t] ==> clusters[j].size < clusters[idx[t]].size)
    {
      var u :| 0 <= u < |idx| && idx[u] == j;
      assert found[u] == clusters[j] && found[t] == clusters[idx[t]];
      assert SizeOf(found[u]) <= SizeOf(found[t]);
      assert t < u ==> idx[t] < idx[u];
      if j < idx[t] {
        assert u < t;
        assert SizeOf(found[u]) < SizeOf(found[t]);
      }
    }
  }

  /** The weight of the first entry about `c`, 0 when there is none. */
  function Strength(adj: seq<(string, real)>, c: string): real {
    if adj == [] then 0.0 else if adj[0].0 == c then adj[0].1 else Strength(adj[1..], c)
  }

  /** `connected_concepts`: each other cluster member that is a node, with
      the weight of its first link to the start. */
  function ConnectedOf(members: seq<string>, start: string, nodes: NodeIndex, graph: Adjacency): seq<(string, real)> {
    if members == [] then []
    else
      var c := members[|members| - 1];
      ConnectedOf(members[..|members| - 1], start, nodes, graph)
        + (if c != start && c in nodes.at then [(c, Strength(AdjOf(graph, start), c))] else [])
  }

  method Connected(members: seq<string>, start: string, nodes: NodeIndex, graph: Adjacency) returns (connected: seq<(string, real)>)
    ensures connected == ConnectedOf(members, start, nodes, graph)
  {
    connected := [];
    var adj := AdjOf(graph, start);
    for k := 0 to |members|
      invariant connected == ConnectedOf(members[..k], start, nodes, graph)
    {
      assert members[..k + 1][..k] == members[..k];
      var c := members[k];
      if c != start && c in nodes.at {
        var strength := 0.0;
        var i := 0;
        while i < |adj|
          invariant 0 <= i <= |adj|
          invariant strength == 0.0 && Strength(adj, c) == Strength(adj[i..], c)
        {
          if adj[i].0 == c {
            strength := adj[i].1;
            break;
          }
          assert adj[i..][1..] == adj[i + 1..];
          i := i + 1;
        }
        assert strength == Strength(adj, c);
        connected := connected + [(c, strength)];
      }
    }
    assert members[..|members|] == members;
  }

  /** A connection is the first link's weight, or 0 when there is no link. */
  lemma {:induction false} StrengthFacts(adj: seq<(string, real)>, c: string)
    ensures !NamedIn(c, adj) ==> Strength(adj, c) == 0.0
    ensures NamedIn(c, adj) ==>
      exists i :: 0 <= i < |adj| && adj[i].0 == c && Strength(adj, c) == adj[i].1 && forall j :: 0 <= j < i ==> adj[j].0 != c
  {
    if adj != [] && adj[0].0 != c {
      StrengthFacts(adj[1..], c);
      if NamedIn(c, adj) {
        var i :| 0 <= i < |adj| && adj[i].0 == c;
        assert adj[1..][i - 1].0 == c;
        var i' :| 0 <= i' < |adj[1..]| && adj[1..][i'].0 == c && Strength(adj[1..], c) == adj[1..][i'].1
          && forall j :: 0 <= j < i' ==> adj[1..][j].0 != c;
        assert adj[i' + 1] == adj[1..][i'];
        forall j | 0 <= j < i' + 1 ensures adj[j].0 != c {
          if j > 0 {
            assert adj[j] == adj[1..][j - 1];
          }
        }
      } else {
        forall i | 0 <= i < |adj[1..]| ensures adj[1..][i].0 != c {
          assert adj[1..][i] == adj[i + 1];
        }
      }
    }
  }

  /** The connections are the other cluster members that are nodes, each
      with its connection strength to the start. */
  lemma {:induction false} ConnectedFacts(members: seq<string>, start: string, nodes: NodeIndex, graph: Adjacency)
    ensures forall e :: e in ConnectedOf(members, start, nodes, graph) ==>
      e.0 in members && e.0 != start && e.0 in nodes.at && e.1 == Strength(AdjOf(graph, start), e.0)
    ensures forall c :: c in members && c != start && c in nodes.at ==> NamedIn(c, ConnectedOf(members, start, nodes, graph))
  {
    if members != [] {
      var init := members[..|members| - 1];
      var c := members[|members| - 1];
      ConnectedFacts(init, start, nodes, graph);
      assert members == init + [c];
      var r := ConnectedOf(members, start, nodes, graph);
      var r0 := ConnectedOf(init, start, nodes, graph);
      forall x | x in members && x != start && x in nodes.at ensures NamedIn(x, r) {
        if x in init {
          var i :| 0 <= i < |r0| && r0[i].0 == x;
          assert r[i] == r0[i];
        } else {
          assert r[|r0|].0 == x;
        }
      }
    }
  }

  /** `sorted(connected_concepts, ...)[:3]` */
  function TopConnected(members: seq<string>, start: string, nodes: NodeIndex, graph: Adjacency): seq<(string, real)> {
    Take(SortDesc(ConnectedOf(members, start, nodes, graph), Weight), 3)
  }

  /** `connections_to_path`: how many path concepts list `x` as a neighbour. */
  function TouchCount(path: seq<string>, graph: Adjacency, x: string): real {
    if path == [] then 0.0
    else TouchCount(path[..|path| - 1], graph, x) + (if NamedIn(x, AdjOf(graph, path[|path| - 1])) then 1.0 else 0.0)
  }

  /** The count only grows as the path grows. */
  lemma {:induction false} TouchCountGrows(a: seq<string>, b: seq<string>, graph: Adjacency, x: string)
    ensures TouchCount(a, graph, x) <= TouchCount(a + b, graph, x)
    decreases |b|
  {
    if b != [] {
      var b0 := b[..|b| - 1];
      TouchCountGrows(a, b0, graph, x);
      assert (a + b)[..|a + b| - 1] == a + b0;
      assert TouchCount(a + b, graph, x) >= TouchCount(a + b0, graph, x);
    } else {
      assert a + b == a;
    }
  }

  /** The nodes of `order` off the path that neighbour at least two of its
      concepts, each with that count, in that order. */
  function CandidatesOf(order: seq<string>, path: seq<string>, graph: Adjacency): seq<(string, real)> {
    if order == [] then []
    else
      var r := CandidatesOf(order[..|order| - 1], path, graph);
      var id := order[|order| - 1];
      if id !in path && TouchCount(path, graph, id) >= 2.0 then r + [(id, TouchCount(path, graph, id))] else r
  }

  /** The candidates are exactly the nodes off the path that neighbour two
      or more of its concepts, each with its count. */
  lemma {:induction false} CandidatesOfFacts(order: seq<string>, path: seq<string>, graph: Adjacency)
    ensures var r := CandidatesOf(order, path, graph);
      && (forall i :: 0 <= i < |r| ==>
            r[i].0 in order && r[i].0 !in path && r[i].1 == TouchCount(path, graph, r[i].0) && r[i].1 >= 2.0)
      && (forall x :: x in order && x !in path && TouchCount(path, graph, x) >= 2.0 ==> NamedIn(x, r))
  {
    if order != [] {
      var init := order[..|order| - 1];
      var id := order[|order| - 1];
      CandidatesOfFacts(init, path, graph);
      InitLast(order);
      var r0 := CandidatesOf(init, path, graph);
      assert forall i :: 0 <= i < |r0| ==>
        r0[i].0 in init && r0[i].0 !in path && r0[i].1 == TouchCount(path, graph, r0[i].0) && r0[i].1 >= 2.0;
      var r := CandidatesOf(order, path, graph);
      forall x | x in order ensures x in init || x == id {
      }
      forall x | x in init ensures x in order {
      }
      if id !in path && TouchCount(path, graph, id) >= 2.0 {
        var e := (id, TouchCount(path, graph, id));
        assert r == r0 + [e];
        NamedInSnoc(r0, e);
        forall i | 0 <= i < |r|
          ensures r[i].0 in order && r[i].0 !in path && r[i].1 == TouchCount(path, graph, r[i].0) && r[i].1 >= 2.0
        {
          if i < |r0| {
            assert r[i] == r0[i];
            assert r0[i].0 in init;
          } else {
            assert r[i] == e;
          }
        }
      } else {
        assert r == r0;
        forall i | 0 <= i < |r| ensures r[i].0 in order {
          assert r0[i].0 in init;
        }
      }
    }
  }

  /** `connections_to_path`, counted over the path. */
  method CountTouches(path: seq<string>, graph: Adjacency, id: string) returns (count: real)
    ensures count == TouchCount(path, graph, id)
  {
    count := 0.0;
    for p := 0 to |path|
      invariant count == TouchCount(path[..p], graph, id)
    {
      assert path[..p + 1][..p] == path[..p];
      if NamedIn(id, AdjOf(graph, path[p])) {
        count := count + 1.0;
      }
    }
    assert path[..|path|] == path;
  }

  /** `pattern_candidates`: every unvisited node that neighbours at least two
      concepts of the path, with that count, in node order; `visited` mirrors
      the path. */
  method PatternCandidates(path: seq<string>, visited: set<string>, nodes: NodeIndex, graph: Adjacency)
    returns (cands: seq<(string, real)>)
    requires Valid(nodes) && forall x :: x in visited <==> x in path
    ensures forall i :: 0 <= i < |cands| ==>
      cands[i].0 in nodes.at && cands[i].0 !in visited && cands[i].1 == TouchCount(path, graph, cands[i].0) && cands[i].1 >= 2.0
    ensures forall x :: x in nodes.at && x !in visited && TouchCount(path, graph, x) >= 2.0 ==> NamedIn(x, cands)
    ensures cands == CandidatesOf(nodes.order, path, graph)
  {
    cands := [];
    for k := 0 to |nodes.order|
      invariant cands == CandidatesOf(nodes.order[..k], path, graph)
    {
      var id := nodes.order[k];
      assert nodes.order[..k + 1][..k] == nodes.order[..k];
      if id !in visited {
        var count := CountTouches(path, graph, id);
        if count >= 2.0 {
          cands := cands + [(id, count)];
        }
      }
    }
    assert nodes.order[..|nodes.order|] == nodes.order;
    CandidatesOfFacts(nodes.order, path, graph);
  }

  lemma NamedInSnoc(es: seq<(string, real)>, e: (string, real))
    ensures forall x :: NamedIn(x, es + [e]) <==> NamedIn(x, es) || x == e.0
  {
    forall x ensures NamedIn(x, es + [e]) <==> NamedIn(x, es) || x == e.0 {
      if NamedIn(x, es) {
        var i :| 0 <= i < |es| && es[i].0 == x;
        assert (es + [e])[i] == es[i];
      }
      if x == e.0 {
        assert (es + [e])[|es|] == e;
      }
      if NamedIn(x, es + [e]) {
        var i :| 0 <= i < |es| + 1 && (es + [e])[i].0 == x;
        if i < |es| {
          assert es[i] == (es + [e])[i];
        }
      }
    }
  }

  /** The first stage: the start, then the concepts of the three strongest
      connections, each once. */
  function StageOne(start: string, nodes: NodeIndex, graph: Adjacency, members: seq<string>): seq<string> {
    Grow([start], Names(TopConnected(members, start, nodes, graph)), 4)
  }

  /** `pattern_candidates[:2]` after sorting, for the first stage. */
  function BestCandidates(start: string, nodes: NodeIndex, graph: Adjacency, members: seq<string>): seq<(string, real)> {
    Take(SortDesc(CandidatesOf(nodes.order, StageOne(start, nodes, graph, members), graph), Weight), 2)
  }

  /** The whole pattern path: the first stage, then the two best pattern
      candidates, then, while it is shorter than 5, the unvisited cluster
      members in cluster order. */
  function ClusterBase(start: string, nodes: NodeIndex, graph: Adjacency, members: seq<string>): seq<string> {
    var s2 := Grow(StageOne(start, nodes, graph, members), Names(BestCandidates(start, nodes, graph, members)), 6);
    if |s2| < 5 then Grow(s2, members, 5) else s2
  }

  /** The path is the pattern path of the cluster. Every concept of the three
      strongest connections and of the two best candidates is on it, and
      every concept on it is the start, a member of the primary cluster, or
      a node that neighbours two or more concepts of the path. */
  ghost predicate PatternShaped(path: seq<string>, start: string, nodes: NodeIndex, graph: Adjacency, members: seq<string>) {
    && path == ClusterBase(start, nodes, graph, members)
    && (forall i :: 0 <= i < |TopConnected(members, start, nodes, graph)| ==> TopConnected(members, start, nodes, graph)[i].0 in path)
    && (forall i :: 0 <= i < |BestCandidates(start, nodes, graph, members)| ==> BestCandidates(start, nodes, graph, members)[i].0 in path)
    && (forall x :: x in path ==> x == start || x in members || (x in nodes.at && TouchCount(path, graph, x) >= 2.0))
  }

  /** At most 6 concepts, the start first, none twice. A start in no
      cluster gets the default path; otherwise the path is shaped by the
      primary cluster. */
  ghost predicate PatternOutcome(path: seq<string>, start: string, nodes: NodeIndex, graph: Adjacency, clusters: seq<JCluster>) {
    && 1 <= |path| <= 6 && path[0] == start && Distinct(path)
    && ((forall j :: 0 <= j < |clusters| ==> start !in clusters[j].concepts) ==> DefaultShaped(path, start, nodes, graph))
    && ((exists j :: 0 <= j < |clusters| && start in clusters[j].concepts) ==>
         exists k: nat :: Primary(clusters, start, k) && PatternShaped(path, start, nodes, graph, clusters[k].concepts))
  }

  method PatternPath(start: string, nodes: NodeIndex, graph: Adjacency, clusters: seq<JCluster>, draw: nat -> nat)
    returns (path: seq<string>)
    requires Valid(nodes)
    ensures PatternOutcome(path, start, nodes, graph, clusters)
  {
    var found, idx := StartClusters(clusters, start);
    if found == [] {
      path := DefaultPath(start, nodes, graph, draw);
      return;
    }
    var t := ArgMax(found, SizeOf);
    PrimaryChosen(clusters, start, found, idx, t);
    path := ClusterPath(start, nodes, graph, found[t].concepts, draw);
  }

  /** The path once the primary cluster, with these members, is chosen. */
  method ClusterPath(start: string, nodes: NodeIndex, graph: Adjacency, members: seq<string>, draw: nat -> nat)
    returns (path: seq<string>)
    requires Valid(nodes)
    ensures 1 <= |path| <= 6 && path[0] == start && Distinct(path)
    ensures PatternShaped(path, start, nodes, graph, members)
  {
    var connected := Connected(members, start, nodes, graph);
    var top := Take(SortDesc(connected, Weight), 3);
    var visited;
    path, visited := AppendNew([start], {start}, Names(top), 4);
    ghost var stage1 := path;

    var cands := PatternCandidates(path, visited, nodes, graph);
    var best := Take(SortDesc(cands, Weight), 2);
    path, visited := AppendNew(path, visited, Names(best), 6);
    CandidatesOnPath(stage1, path, cands, best, nodes, graph);
    ghost var stage2 := path;

    if |path| < 5 {
      path, visited := AppendNew(path, visited, members, 5);
    }
    assert best == BestCandidates(start, nodes, graph, members);
    ClusterShape(path, stage1, stage2, start, nodes, graph, members);
  }

  /** The three stages, given as closed forms, make a pattern-shaped path. */
  lemma ClusterShape(path: seq<string>, stage1: seq<string>, stage2: seq<string>, start: string,
                     nodes: NodeIndex, graph: Adjacency, members: seq<string>)
    requires stage1 == StageOne(start, nodes, graph, members)
    requires stage2 == Grow(stage1, Names(BestCandidates(start, nodes, graph, members)), 6)
    requires forall x :: x in stage2 ==> x in stage1 || (x in nodes.at && TouchCount(stage1, graph, x) >= 2.0)
    requires path == if |stage2| < 5 then Grow(stage2, members, 5) else stage2
    ensures 1 <= |path| <= 6 && path[0] == start && Distinct(path)
    ensures PatternShaped(path, start, nodes, graph, members)
  {
    var top := TopConnected(members, start, nodes, graph);
    var best := BestCandidates(start, nodes, graph, members);
    GrowFacts([start], Names(top), 4);
    GrowFacts(stage1, Names(best), 6);
    if |stage2| < 5 {
      GrowFacts(stage2, members, 5);
    }
    BestKept(path, stage1, stage2, best);
    ClusterProvenance(path, stage1, stage2, start, nodes, graph, members);
  }

  /** The two best candidates always fit: the first stage holds at most 4
      concepts and the limit is 6. */
  lemma BestKept(path: seq<string>, stage1: seq<string>, stage2: seq<string>, best: seq<(string, real)>)
    requires |stage1| <= 4 && |best| <= 2
    requires stage2 == Grow(stage1, Names(best), 6)
    requires |stage2| <= |path| && path[..|stage2|] == stage2
    ensures forall i :: 0 <= i < |best| ==> best[i].0 in path
  {
    GrowAll(stage1, Names(best), 6, stage2);
    TopKept(path, stage2, stage2, best);
  }

  lemma ClusterProvenance(path: seq<string>, stage1: seq<string>, stage2: seq<string>, start: string,
                          nodes: NodeIndex, graph: Adjacency, members: seq<string>)
    requires |stage1| >= 1 && stage1[0] == start
    requires |stage1| <= |stage2| <= |path| && stage2[..|stage1|] == stage1 && path[..|stage2|] == stage2
    requires forall j :: 1 <= j < |stage1| ==> stage1[j] in Names(TopConnected(members, start, nodes, graph))
    requires |Names(TopConnected(members, start, nodes, graph))| + 1 <= 4
      ==> forall x :: x in Names(TopConnected(members, start, nodes, graph)) ==> x in stage1
    requires forall x :: x in stage2 ==> x in stage1 || (x in nodes.at && TouchCount(stage1, graph, x) >= 2.0)
    requires forall j :: |stage2| <= j < |path| ==> path[j] in members
    requires stage1 == StageOne(start, nodes, graph, members)
    requires stage2 == Grow(stage1, Names(BestCandidates(start, nodes, graph, members)), 6)
    requires path == if |stage2| < 5 then Grow(stage2, members, 5) else stage2
    requires forall i :: 0 <= i < |BestCandidates(start, nodes, graph, members)| ==>
      BestCandidates(start, nodes, graph, members)[i].0 in path
    ensures PatternShaped(path, start, nodes, graph, members)
  {
    var top := TopConnected(members, start, nodes, graph);
    NamesNamed(top);
    assert forall x :: x in stage1 ==> x == start || NamedIn(x, top) by {
      forall x | x in stage1 ensures x == start || NamedIn(x, top) {
        var j :| 0 <= j < |stage1| && stage1[j] == x;
      }
    }
    ConnectedMembers(members, start, nodes, graph, stage1);
    LaterMembers(path, stage2, members);
    assert forall x :: x in Names(top) ==> x in stage1;
    TopKept(path, stage1, stage2, top);
    PatternProvenance(path, stage1, stage2, start, nodes, graph, members);
  }

  /** Concepts past the second stage are cluster members. */
  lemma LaterMembers(path: seq<string>, stage2: seq<string>, members: seq<string>)
    requires |stage2| <= |path| && path[..|stage2|] == stage2
    requires forall j :: |stage2| <= j < |path| ==> path[j] in members
    ensures forall x :: x in path ==> x in stage2 || x in members
  {
    forall x | x in path ensures x in stage2 || x in members {
      var j :| 0 <= j < |path| && path[j] == x;
      if j < |stage2| {
        assert path[j] == stage2[j];
      }
    }
  }

  /** Every top neighbour taken in the first stage stays on the path. */
  lemma TopKept(path: seq<string>, stage1: seq<string>, stage2: seq<string>, top: seq<(string, real)>)
    requires |stage1| <= |stage2| <= |path| && stage2[..|stage1|] == stage1 && path[..|stage2|] == stage2
    requires forall x :: x in Names(top) ==> x in stage1
    ensures forall i :: 0 <= i < |top| ==> top[i].0 in path
  {
    forall i | 0 <= i < |top| ensures top[i].0 in path {
      var n := Names(top)[i];
      assert n == top[i].0;
      assert n in Names(top);
      assert n in stage1;
      var j :| 0 <= j < |stage1| && stage1[j] == n;
      assert path[j] == stage2[j] == stage1[j];
    }
  }

  /** The second stage adds only pattern candidates. */
  lemma CandidatesOnPath(stage1: seq<string>, path: seq<string>, cands: seq<(string, real)>, best: seq<(string, real)>,
                         nodes: NodeIndex, graph: Adjacency)
    requires |stage1| <= |path| && path[..|stage1|] == stage1
    requires forall j :: |stage1| <= j < |path| ==> path[j] in Names(best)
    requires best == Take(SortDesc(cands, Weight), 2)
    requires forall i :: 0 <= i < |cands| ==> cands[i].0 in nodes.at && cands[i].1 == TouchCount(stage1, graph, cands[i].0) && cands[i].1 >= 2.0
    ensures forall x :: x in path ==> x in stage1 || (x in nodes.at && TouchCount(stage1, graph, x) >= 2.0)
  {
    SortDescFacts(cands, Weight);
    forall x | x in path ensures x in stage1 || (x in nodes.at && TouchCount(stage1, graph, x) >= 2.0) {
      var j :| 0 <= j < |path| && path[j] == x;
      if j < |stage1| {
        assert stage1[j] == x;
      } else {
        var k :| 0 <= k < |best| && Names(best)[k] == x;
        assert best[k] in SortDesc(cands, Weight);
        assert best[k] in multiset(SortDesc(cands, Weight));
        assert best[k] in cands;
      }
    }
  }

  /** The first stage: every concept is the start or a cluster member. */
  lemma ConnectedMembers(members: seq<string>, start: string, nodes: NodeIndex, graph: Adjacency, path: seq<string>)
    requires forall x :: x in path ==> x == start || NamedIn(x, Take(SortDesc(ConnectedOf(members, start, nodes, graph), Weight), 3))
    ensures forall x :: x in path ==> x == start || x in members
  {
    var c := ConnectedOf(members, start, nodes, graph);
    var top := Take(SortDesc(c, Weight), 3);
    ConnectedFacts(members, start, nodes, graph);
    SortDescFacts(c, Weight);
    forall x | x in path && x != start ensures x in members {
      var i :| 0 <= i < |top| && top[i].0 == x;
      assert top[i] in SortDesc(c, Weight);
      assert top[i] in multiset(SortDesc(c, Weight));
      assert top[i] in c;
    }
  }

  lemma PatternProvenance(path: seq<string>, stage1: seq<string>, stage2: seq<string>, start: string,
                          nodes: NodeIndex, graph: Adjacency, members: seq<string>)
    requires |stage1| <= |stage2| <= |path| && stage2[..|stage1|] == stage1 && path[..|stage2|] == stage2
    requires forall x :: x in stage1 ==> x == start || x in members
    requires forall x :: x in stage2 ==> x in stage1 || (x in nodes.at && TouchCount(stage1, graph, x) >= 2.0)
    requires forall x :: x in path ==> x in stage2 || x in members
    ensures forall x :: x in path ==> x == start || x in members || (x in nodes.at && TouchCount(path, graph, x) >= 2.0)
  {
    assert path == stage1 + path[|stage1|..] by {
      assert path[..|stage1|] == stage2[..|stage1|];
    }
    TouchCountGroupsAll(stage1, path[|stage1|..], graph);
  }

  lemma TouchCountGroupsAll(a: seq<string>, b: seq<string>, graph: Adjacency)
    ensures forall x :: TouchCount(a, graph, x) <= TouchCount(a + b, graph, x)
  {
    forall x ensures TouchCount(a, graph, x) <= TouchCount(a + b, graph, x) {
      TouchCountGrows(a, b, graph, x);
    }
  }

  // ---------------------------------------------------------------------------
  // `_generate_hierarchical_path`

  /** The loop over the roots looking for the start's parent. */
  datatype ParentSearch = Parent(root: string) | NoParent | Raises

  function FindParent(start: string, roots: seq<string>, tree: map<string, seq<string>>, i: nat): ParentSearch
    decreases |roots| - i
  {
    if i >= |roots| then NoParent
    else
      match IsDescendant(start, roots[i], tree)
      case Yes => Parent(roots[i])
      case Loops => Raises
      case No => FindParent(start, roots, tree, i + 1)
  }

  function ParentOf(start: string, h: JHierarchy): ParentSearch {
    FindParent(start, h.roots, h.tree, 0)
  }

  /** The parent as the code holds it: `None` and `''` are both false. */
  function ParentName(p: ParentSearch): string {
    if p.Parent? then p.root else ""
  }

  /** The parent is the first root the start descends from; the search
      raises exactly when, before any such root, a root's search recurses
      without end. */
  lemma {:induction false} FindParentFacts(start: string, roots: seq<string>, tree: map<string, seq<string>>, i: nat)
    requires i <= |roots|
    ensures FindParent(start, roots, tree, i).Parent? ==>
      exists k :: i <= k < |roots| && roots[k] == FindParent(start, roots, tree, i).root
        && IsDescendant(start, roots[k], tree) == Yes && forall j :: i <= j < k ==> IsDescendant(start, roots[j], tree) == No
    ensures FindParent(start, roots, tree, i).NoParent? <==> forall j :: i <= j < |roots| ==> IsDescendant(start, roots[j], tree) == No
    ensures FindParent(start, roots, tree, i).Raises? ==>
      exists k :: i <= k < |roots| && IsDescendant(start, roots[k], tree) == Loops
        && forall j :: i <= j < k ==> IsDescendant(start, roots[j], tree) == No
    decreases |roots| - i
  {
    if i < |roots| {
      FindParentFacts(start, roots, tree, i + 1);
    }
  }

  /** Over a tree keyed only by roots the search never raises, and the
      parent is the first root that lists the start as a child. */
  lemma ParentOfRootsOnly(start: string, h: JHierarchy)
    requires RootsOnly(h.tree) && start !in h.roots
    ensures !ParentOf(start, h).Raises?
    ensures ParentOf(start, h).Parent? ==>
      exists k :: 0 <= k < |h.roots| && h.roots[k] == ParentOf(start, h).root && start in ChildrenOf(h.tree, h.roots[k])
        && forall j :: 0 <= j < k ==> start !in ChildrenOf(h.tree, h.roots[j])
    ensures ParentOf(start, h).NoParent? <==> forall k :: 0 <= k < |h.roots| ==> start !in ChildrenOf(h.tree, h.roots[k])
  {
    forall r | r in h.roots
      ensures IsDescendant(start, r, h.tree) == if start in ChildrenOf(h.tree, r) then Yes else No
    {
      DescendantOfRoot(start, r, h.tree);
    }
    FindParentFacts(start, h.roots, h.tree, 0);
    if ParentOf(start, h).Parent? {
      var k :| 0 <= k < |h.roots| && h.roots[k] == ParentOf(start, h).root
        && IsDescendant(start, h.roots[k], h.tree) == Yes && forall j :: 0 <= j < k ==> IsDescendant(start, h.roots[j], h.tree) == No;
      assert h.roots[k] in h.roots;
      forall j | 0 <= j < k ensures start !in ChildrenOf(h.tree, h.roots[j]) {
        assert h.roots[j] in h.roots;
      }
    }
    if forall k :: 0 <= k < |h.roots| ==> start !in ChildrenOf(h.tree, h.roots[k]) {
      forall k | 0 <= k < |h.roots| ensures IsDescendant(start, h.roots[k], h.tree) == No {
        assert h.roots[k] in h.roots;
      }
    }
    if ParentOf(start, h).NoParent? {
      forall k | 0 <= k < |h.roots| ensures start !in ChildrenOf(h.tree, h.roots[k]) {
        assert h.roots[k] in h.roots;
        assert IsDescendant(start, h.roots[k], h.tree) == No;
      }
    }
  }

  /** A root start before padding: itself, then its first four children,
      each once. */
  function RootBase(start: string, tree: map<string, seq<string>>): seq<string> {
    Grow([start], Take(ChildrenOf(tree, start), 4), 5)
  }

  /** A root start: itself, then its first four children, padded. */
  ghost predicate RootShaped(path: seq<string>, start: string, nodes: NodeIndex, tree: map<string, seq<string>>) {
    && 1 <= |path| <= 5 && path[0] == start
    && (forall i :: 0 <= i < |Take(ChildrenOf(tree, start), 4)| ==> Take(ChildrenOf(tree, start), 4)[i] in path)
    && (forall x :: x in path ==> x == start || x in Take(ChildrenOf(tree, start), 4) || Similar(nodes, start, x))
    && PadShaped(path, RootBase(start, tree), nodes, start)
  }

  /** The path a non-root start begins with: its parent, when it has one,
      then itself. */
  function Lead(start: string, parent: string): seq<string> {
    if parent != "" then [parent, start] else [start]
  }

  /** The children of the parent, none without one. */
  function Siblings(tree: map<string, seq<string>>, parent: string): seq<string> {
    if parent != "" then ChildrenOf(tree, parent) else []
  }

  /** A non-root start before padding: the lead, then its unvisited
      siblings while the path is shorter than 4, then its unvisited
      children while it is shorter than 6, each in tree order. */
  function ChildBase(start: string, tree: map<string, seq<string>>, parent: string): seq<string> {
    Grow(Grow(Lead(start, parent), Siblings(tree, parent), 4), ChildrenOf(tree, start), 6)
  }

  /** Any other start: its parent (when it has a true one) first, then the
      start; then siblings, children and padding, where from position 4 on
      only children and padding occur. */
  ghost predicate ChildShaped(path: seq<string>, start: string, nodes: NodeIndex, tree: map<string, seq<string>>, parent: string) {
    && |path| >= 1
    && (parent != "" ==> |path| >= 2 && path[0] == parent && path[1] == start)
    && (parent == "" ==> path[0] == start)
    && (forall x :: x in path ==>
          x == start || (parent != "" && (x == parent || x in ChildrenOf(tree, parent)))
          || x in ChildrenOf(tree, start) || Similar(nodes, start, x))
    && (forall i :: 4 <= i < |path| ==> path[i] in ChildrenOf(tree, start) || Similar(nodes, start, path[i]))
    && PadShaped(path, ChildBase(start, tree, parent), nodes, start)
  }

  ghost predicate HierarchyShaped(path: seq<string>, start: string, nodes: NodeIndex, h: JHierarchy) {
    && 1 <= |path| <= 6 && start in path && Distinct(path)
    && (start in h.roots ==> RootShaped(path, start, nodes, h.tree))
    && (start !in h.roots ==> ChildShaped(path, start, nodes, h.tree, ParentName(ParentOf(start, h))))
  }

  /** Where each concept of a hierarchical path comes from: the start, its
      parent or a sibling, a child, or a node of similar importance. */
  ghost predicate HierarchyFrom(path: seq<string>, start: string, nodes: NodeIndex, h: JHierarchy) {
    var parent := ParentName(ParentOf(start, h));
    forall x :: x in path ==>
      x == start || (parent != "" && (x == parent || x in ChildrenOf(h.tree, parent)))
      || x in ChildrenOf(h.tree, start) || Similar(nodes, start, x)
  }

  lemma HierarchyShapedFrom(path: seq<string>, start: string, nodes: NodeIndex, h: JHierarchy)
    requires HierarchyShaped(path, start, nodes, h)
    ensures HierarchyFrom(path, start, nodes, h)
  {
    if start in h.roots {
      var c := ChildrenOf(h.tree, start);
      forall x | x in Take(c, 4) ensures x in c {
        var i :| 0 <= i < |Take(c, 4)| && Take(c, 4)[i] == x;
        assert c[i] == x;
      }
    }
  }

  /** A root start: itself, its first four children not yet on the path,
      then padding. */
  method RootPath(start: string, nodes: NodeIndex, tree: map<string, seq<string>>, draw: nat -> nat)
    returns (path: seq<string>)
    requires Valid(nodes)
    ensures start in path && Distinct(path) && RootShaped(path, start, nodes, tree)
  {
    var children := Take(ChildrenOf(tree, start), 4);
    // The source's loop has no length guard; with at most four children
    // after the start the limit of 5 is never reached.
    var visited;
    path, visited := AppendNew([start], {start}, children, 5);
    var before := path;
    path := PadSimilar(path, visited, nodes, start, draw);
    RootFacts(before, path, start, nodes, tree);
  }

  /** The base grown from the first four children, padded, is a root path. */
  lemma RootFacts(before: seq<string>, path: seq<string>, start: string, nodes: NodeIndex, tree: map<string, seq<string>>)
    requires before == RootBase(start, tree)
    requires |before| <= |path| && path[..|before|] == before
    requires |path| == PadCount(before, nodes, start)
    requires forall i :: |before| <= i < |path| ==> Similar(nodes, start, path[i])
    ensures start in path && RootShaped(path, start, nodes, tree)
  {
    var children := Take(ChildrenOf(tree, start), 4);
    GrowShape([start], children, 5);
    GrowFrom([start], children, 5);
    GrowAll([start], children, 5, before);
    assert before[0] == before[..1][0];
    assert path[0] == before[0];
    BaseProvenance(before, path, start, children, nodes);
    forall i | 0 <= i < |children| ensures children[i] in path {
      assert children[i] in children;
    }
  }

  /** The first root the start descends from, `""` for none, or the
      recursion error when a descendant check loops. */
  method SearchParent(start: string, h: JHierarchy) returns (r: Result<string>)
    ensures r.Failure? <==> ParentOf(start, h).Raises?
    ensures r.Failure? ==> r.error == "RecursionError"
    ensures r.Success? ==> r.value == ParentName(ParentOf(start, h))
    ensures r.Success? && r.value != "" ==> r.value in h.roots
  {
    var i := 0;
    while i < |h.roots|
      invariant 0 <= i <= |h.roots|
      invariant ParentOf(start, h) == FindParent(start, h.roots, h.tree, i)
    {
      var d := IsDescendant(start, h.roots[i], h.tree);
      if d == Loops {
        return Failure("RecursionError");
      }
      if d == Yes {
        return Success(h.roots[i]);
      }
      i := i + 1;
    }
    return Success("");
  }

  method HierarchicalPath(start: string, nodes: NodeIndex, h: JHierarchy, draw: nat -> nat) returns (r: Result<seq<string>>)
    requires Valid(nodes)
    ensures r.Failure? <==> start !in h.roots && ParentOf(start, h).Raises?
    ensures r.Failure? ==> r.error == "RecursionError"
    ensures r.Success? ==> HierarchyShaped(r.value, start, nodes, h)
  {
    var tree := h.tree;
    if start in h.roots {
      var path := RootPath(start, nodes, tree, draw);
      return Success(path);
    }

    var search := SearchParent(start, h);
    if search.Failure? {
      return Failure(search.error);
    }
    var parent := search.value;
    var path := [start];
    var visited := {start};
    if parent != "" && parent !in visited {
      path := [parent] + path;
      visited := visited + {parent};
    }
    assert parent != "" ==> parent in h.roots;
    assert parent != "" ==> path == [parent, start];
    ghost var stage := path;

    var siblings: seq<string> := [];
    if parent != "" {
      siblings := ChildrenOf(tree, parent);
    }
    // A sibling equal to the start is skipped too: the start is visited.
    path, visited := AppendNew(path, visited, siblings, 4);
    LaterMembers(path, stage, siblings);
    ghost var stage2 := path;

    var children := ChildrenOf(tree, start);
    path, visited := AppendNew(path, visited, children, 6);
    LaterMembers(path, stage2, children);
    var before := path;
    assert stage == Lead(start, parent) && siblings == Siblings(tree, parent);
    assert before == ChildBase(start, tree, parent);
    path := PadSimilar(path, visited, nodes, start, draw);
    HierarchyProvenance(path, before, stage2, stage, start, nodes, tree, parent, siblings);
    return Success(path);
  }

  lemma HierarchyProvenance(path: seq<string>, before: seq<string>, stage2: seq<string>, stage: seq<string>,
                            start: string, nodes: NodeIndex, tree: map<string, seq<string>>, parent: string, siblings: seq<string>)
    requires |stage| <= |stage2| <= |before| <= |path| && path[..|before|] == before
    requires before[..|stage2|] == stage2 && stage2[..|stage|] == stage && |stage2| <= 4
    requires parent != "" ==> stage == [parent, start] && siblings == ChildrenOf(tree, parent)
    requires parent == "" ==> stage == [start] && siblings == []
    requires forall x :: x in stage2 ==> x in stage || x in siblings
    requires forall x :: x in before ==> x in stage2 || x in ChildrenOf(tree, start)
    requires forall j :: |stage2| <= j < |before| ==> before[j] in ChildrenOf(tree, start)
    requires forall i :: |before| <= i < |path| ==> Similar(nodes, start, path[i])
    requires before == ChildBase(start, tree, parent) && |path| == PadCount(before, nodes, start)
    ensures ChildShaped(path, start, nodes, tree, parent)
  {
    assert path[0] == stage[0];
    if parent != "" {
      assert path[1] == stage[1];
    }
    forall x | x in path
      ensures x == start || (parent != "" && (x == parent || x in ChildrenOf(tree, parent)))
           || x in ChildrenOf(tree, start) || Similar(nodes, start, x)
    {
      var i :| 0 <= i < |path| && path[i] == x;
      if i < |before| {
        assert x == before[i];
        assert x in before;
        if i < |stage2| {
          assert x == stage2[i];
          assert x in stage2;
        }
      }
    }
    forall i | 4 <= i < |path| ensures path[i] in ChildrenOf(tree, start) || Similar(nodes, start, path[i]) {
      if i < |before| {
        assert path[i] == before[i];
      }
    }
  }

  // ---------------------------------------------------------------------------
  // `_generate_associative_path`

  /** The first entry whose concept is not in `seen`. */
  function FirstUnvisited(es: seq<(string, real)>, seen: seq<string>): Option<(string, real)> {
    if es == [] then None
    else if es[0].0 !in seen then Some(es[0])
    else FirstUnvisited(es[1..], seen)
  }

  lemma {:induction false} FirstUnvisitedFacts(es: seq<(string, real)>, seen: seq<string>)
    ensures FirstUnvisited(es, seen).None? <==> forall i :: 0 <= i < |es| ==> es[i].0 in seen
    ensures FirstUnvisited(es, seen).Some? ==>
      exists i :: 0 <= i < |es| && es[i] == FirstUnvisited(es, seen).value && es[i].0 !in seen
        && forall j :: 0 <= j < i ==> es[j].0 in seen
  {
    if es != [] && es[0].0 in seen {
      FirstUnvisitedFacts(es[1..], seen);
      if FirstUnvisited(es, seen).Some? {
        var i :| 0 <= i < |es[1..]| && es[1..][i] == FirstUnvisited(es, seen).value && es[1..][i].0 !in seen
          && forall j :: 0 <= j < i ==> es[1..][j].0 in seen;
        assert es[i + 1] == es[1..][i];
        forall j | 0 <= j < i + 1 ensures es[j].0 in seen {
          if j > 0 {
            assert es[j] == es[1..][j - 1];
          }
        }
      }
      forall i | 0 <= i < |es[1..]| ensures es[1..][i] == es[i + 1] {
      }
    }
  }

  /** Of the neighbours sorted by weight, the first unvisited one is an
      unvisited neighbour of the largest weight, and there is none exactly
      when every neighbour is visited. */
  lemma Heaviest(adj: seq<(string, real)>, seen: seq<string>)
    ensures FirstUnvisited(SortDesc(adj, Weight), seen).None? <==> forall e :: e in adj ==> e.0 in seen
    ensures FirstUnvisited(SortDesc(adj, Weight), seen).Some? ==>
      var e := FirstUnvisited(SortDesc(adj, Weight), seen).value;
      e in adj && e.0 !in seen && forall d :: d in adj && d.0 !in seen ==> d.1 <= e.1
  {
    var s := SortDesc(adj, Weight);
    SortDescFacts(adj, Weight);
    assert forall e :: e in adj <==> e in s by {
      forall e ensures e in adj <==> e in s {
        assert e in adj <==> e in multiset(adj);
        assert e in s <==> e in multiset(s);
      }
    }
    HeaviestSorted(s, seen);
  }

  /** `Heaviest` for a list already sorted by weight. */
  lemma HeaviestSorted(s: seq<(string, real)>, seen: seq<string>)
    requires SortedDesc(s, Weight)
    ensures FirstUnvisited(s, seen).None? <==> forall e :: e in s ==> e.0 in seen
    ensures FirstUnvisited(s, seen).Some? ==>
      var e := FirstUnvisited(s, seen).value;
      e in s && e.0 !in seen && forall d :: d in s && d.0 !in seen ==> d.1 <= e.1
  {
    FirstUnvisitedFacts(s, seen);
    if FirstUnvisited(s, seen).Some? {
      var i :| 0 <= i < |s| && s[i] == FirstUnvisited(s, seen).value && s[i].0 !in seen
        && forall j :: 0 <= j < i ==> s[j].0 in seen;
      forall d | d in s && d.0 !in seen ensures d.1 <= s[i].1 {
        var j :| 0 <= j < |s| && s[j] == d;
        assert Weight(s[j]) <= Weight(s[i]);
      }
    } else {
      forall e | e in s ensures e.0 in seen {
        var j :| 0 <= j < |s| && s[j] == e;
      }
    }
  }

  /** One step of the walk from the last concept of `prefix`: it has
      neighbours, and the next concept is the first unvisited neighbour by
      weight when that is a true id, else an unvisited node picked at random. */
  ghost predicate Step(prefix: seq<string>, next: string, nodes: NodeIndex, graph: Adjacency) {
    && |prefix| > 0
    && var adj := AdjOf(graph, prefix[|prefix| - 1]);
       var f := FirstUnvisited(SortDesc(adj, Weight), prefix);
       && adj != [] && next != "" && next !in prefix
       && (f.Some? && f.value.0 != "" ==> next == f.value.0)
       && (!(f.Some? && f.value.0 != "") ==> next in nodes.at)
  }

  /** Why a walk of fewer than five steps stopped: the last concept has no
      neighbours, or none is usable and there is no true unvisited node to
      jump to, or the jump drew the node `''`. */
  ghost predicate Stopped(path: seq<string>, nodes: NodeIndex, graph: Adjacency) {
    && |path| > 0
    && var adj := AdjOf(graph, path[|path| - 1]);
       var f := FirstUnvisited(SortDesc(adj, Weight), path);
       || adj == []
       || (!(f.Some? && f.value.0 != "")
           && ((forall x :: x in nodes.at && x !in path ==> x == "") || ("" in nodes.at && "" !in path)))
  }

  /** At most 6 concepts, the start first, none twice; every step is a
      `Step`, and a walk of fewer than five steps `Stopped`. */
  ghost predicate WalkShaped(path: seq<string>, start: string, nodes: NodeIndex, graph: Adjacency) {
    && 1 <= |path| <= 6 && path[0] == start && Distinct(path)
    && (forall i :: 1 <= i < |path| ==> Step(path[..i], path[i], nodes, graph))
    && (|path| < 6 ==> Stopped(path, nodes, graph))
  }

  /** `[n for n in nodes if n not in visited]` */
  method UnvisitedNodes(nodes: NodeIndex, visited: set<string>) returns (unvisited: seq<string>)
    requires Valid(nodes)
    ensures forall x :: x in unvisited <==> x in nodes.at && x !in visited
  {
    unvisited := [];
    for k := 0 to |nodes.order|
      invariant forall x :: x in unvisited <==> x in nodes.order[..k] && x !in visited
    {
      assert nodes.order[..k + 1] == nodes.order[..k] + [nodes.order[k]];
      if nodes.order[k] !in visited {
        unvisited := unvisited + [nodes.order[k]];
      }
    }
    assert nodes.order[..|nodes.order|] == nodes.order;
  }

  /** The first neighbour, in the given order, that is not visited yet;
      `""` when there is none. */
  method FirstFresh(sorted: seq<(string, real)>, path: seq<string>, visited: set<string>) returns (next: string)
    requires forall x :: x in visited <==> x in path
    ensures FirstUnvisited(sorted, path).Some? ==> next == FirstUnvisited(sorted, path).value.0
    ensures FirstUnvisited(sorted, path).None? ==> next == ""
  {
    next := "";
    var k := 0;
    while k < |sorted|
      invariant 0 <= k <= |sorted|
      invariant next == "" && FirstUnvisited(sorted, path) == FirstUnvisited(sorted[k..], path)
    {
      if sorted[k].0 !in visited {
        next := sorted[k].0;
        return;
      }
      assert sorted[k..][1..] == sorted[k + 1..];
      k := k + 1;
    }
  }

  /** A walk extended by one `Step` is still made of steps. */
  lemma StepsSnoc(path: seq<string>, next: string, nodes: NodeIndex, graph: Adjacency)
    requires forall i :: 1 <= i < |path| ==> Step(path[..i], path[i], nodes, graph)
    requires Step(path, next, nodes, graph)
    ensures forall i :: 1 <= i < |path + [next]| ==> Step((path + [next])[..i], (path + [next])[i], nodes, graph)
  {
    var longer := path + [next];
    forall i | 1 <= i < |longer| ensures Step(longer[..i], longer[i], nodes, graph) {
      if i < |path| {
        assert longer[..i] == path[..i];
      } else {
        assert longer[..i] == path;
      }
    }
  }

  /** The concept the walk moves to from the last one of `path`, or `""`
      when the walk stops there; `pick` stands for the random draw. */
  method NextConcept(path: seq<string>, visited: set<string>, nodes: NodeIndex, graph: Adjacency, pick: nat)
    returns (next: string)
    requires Valid(nodes) && |path| > 0
    requires forall x :: x in visited <==> x in path
    ensures next != "" ==> Step(path, next, nodes, graph)
    ensures next == "" ==> Stopped(path, nodes, graph)
  {
    var neighbours := AdjOf(graph, path[|path| - 1]);
    if neighbours == [] {
      return "";
    }
    var sorted := SortDesc(neighbours, Weight);
    next := FirstFresh(sorted, path, visited);
    ghost var f := FirstUnvisited(sorted, path);
    if f.Some? {
      FirstUnvisitedFacts(sorted, path);
    }
    if next == "" {
      var unvisited := UnvisitedNodes(nodes, visited);
      if unvisited != [] {
        next := unvisited[pick % |unvisited|];
      }
    }
  }

  method AssociativePath(start: string, nodes: NodeIndex, graph: Adjacency, draw: nat -> nat) returns (path: seq<string>)
    requires Valid(nodes)
    ensures WalkShaped(path, start, nodes, graph)
  {
    path := [start];
    var visited := {start};
    var current := start;
    for step := 0 to 5
      invariant |path| == step + 1 && path[0] == start && Distinct(path)
      invariant current == path[|path| - 1]
      invariant forall x :: x in visited <==> x in path
      invariant forall i :: 1 <= i < |path| ==> Step(path[..i], path[i], nodes, graph)
    {
      var next := NextConcept(path, visited, nodes, graph, draw(step));
      if next == "" {
        return;
      }
      DistinctSnoc(path, next);
      var longer := path + [next];
      StepsSnoc(path, next, nodes, graph);
      path := longer;
      visited := visited + {next};
      current := next;
    }
  }
}
