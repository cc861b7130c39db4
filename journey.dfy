/** `LearningJourneyGenerator` (journey.py): the choice of a journey type,
    the metadata of a journey, the content of each concept on it, and
    `generate_journey`, which ties them to the path builders of
    `JourneyPaths`. */
module Journey {
  import opened Util
  import opened JourneyMap
  import opened JourneyPaths

  /** The four values of `metadata['journey_type']`. */
  datatype JourneyType = PatternBased | Hierarchical | Associative | DefaultJourney

  /** `'high'`, `'medium'` and `'low'`. */
  datatype Level = High | Medium | Low

  /** The user preferences the generator reads, each `None` when missing.
      No preferences at all (`None` or `{}`) read as every field `None`. */
  datatype Preferences = Preferences(
    preferred: Option<string>,
    patternSeeking: Option<string>,
    hierarchical: Option<string>,
    associative: Option<string>)

  // ---------------------------------------------------------------------------
  // `_determine_journey_type`

  /** The journey type a preference names, if it names one of the three. */
  function TypeNamed(s: string): Option<JourneyType> {
    if s == "pattern_based" then Some(PatternBased)
    else if s == "hierarchical" then Some(Hierarchical)
    else if s == "associative" then Some(Associative)
    else None
  }

  /** An explicit preference for one of the three journey types wins; then
      the first of the three cognitive styles set to `'high'`; then the type
      of the start concept (`''` when it has none). */
  function JourneyTypeOf(prefs: Preferences, ctype: Option<string>): JourneyType {
    if prefs.preferred.Some? && TypeNamed(prefs.preferred.value).Some? then TypeNamed(prefs.preferred.value).value
    else if prefs.patternSeeking == Some("high") then PatternBased
    else if prefs.hierarchical == Some("high") then Hierarchical
    else if prefs.associative == Some("high") then Associative
    else
      var t := Or(ctype, "");
      if t == "noun_phrase" || t == "key_term" then PatternBased
      else if t == "ORG" || t == "PERSON" || t == "GPE" then Hierarchical
      else Associative
  }

  /** The preference names one of the three journey types. */
  predicate PreferenceDecides(p: Preferences) {
    p.preferred in {Some("pattern_based"), Some("hierarchical"), Some("associative")}
  }

  /** One of the cognitive styles is `'high'`. */
  predicate StyleDecides(p: Preferences) {
    p.patternSeeking == Some("high") || p.hierarchical == Some("high") || p.associative == Some("high")
  }

  /** Each journey type, stated as the conditions under which it is chosen:
      never the default type, and each of the three exactly when a
      preference, a cognitive style or the concept type selects it with
      nothing of higher priority deciding first. */
  lemma JourneyTypeCases(p: Preferences, ctype: Option<string>)
    ensures JourneyTypeOf(p, ctype) != DefaultJourney
    ensures JourneyTypeOf(p, ctype) == PatternBased <==>
      || p.preferred == Some("pattern_based")
      || (!PreferenceDecides(p) && p.patternSeeking == Some("high"))
      || (!PreferenceDecides(p) && !StyleDecides(p) && Or(ctype, "") in {"noun_phrase", "key_term"})
    ensures JourneyTypeOf(p, ctype) == Hierarchical <==>
      || p.preferred == Some("hierarchical")
      || (!PreferenceDecides(p) && p.patternSeeking != Some("high") && p.hierarchical == Some("high"))
      || (!PreferenceDecides(p) && !StyleDecides(p) && Or(ctype, "") in {"ORG", "PERSON", "GPE"})
    ensures JourneyTypeOf(p, ctype) == Associative <==>
      || p.preferred == Some("associative")
      || (!PreferenceDecides(p) && p.patternSeeking != Some("high") && p.hierarchical != Some("high") && p.associative == Some("high"))
      || (!PreferenceDecides(p) && !StyleDecides(p) && Or(ctype, "") !in {"noun_phrase", "key_term", "ORG", "PERSON", "GPE"})
  {
  }

  // ---------------------------------------------------------------------------
  // `_generate_concept_content`

  /** `{'id': ..., 'relationship_type': ..., 'strength': ...}` */
  datatype Related = Related(id: string, rtype: string, strength: real)

  /** The content of a concept; the placeholder texts (description,
      insights, examples, visual elements, activities) are not modelled. */
  datatype ConceptContent = ConceptContent(
    title: string,
    ctype: string,
    importance: real,
    cluster: Option<string>,
    related: seq<Related>)

  function StrengthOf(r: Related): real { r.strength }

  /** The entry a link contributes for concept `c`: its other end, when
      exactly one end is `c`. */
  function RelatedVia(l: JLink, c: string): Option<Related> {
    if l.source == c && l.target != c then Some(Related(l.target, Or(l.ltype, "related"), WeightOf(l)))
    else if l.target == c && l.source != c then Some(Related(l.source, Or(l.ltype, "related"), WeightOf(l)))
    else None
  }

  /** The related concepts in link order, before sorting. */
  function RelatedAll(links: seq<JLink>, c: string): seq<Related> {
    if links == [] then []
    else
      var l := links[|links| - 1];
      RelatedAll(links[..|links| - 1], c) + (if RelatedVia(l, c).Some? then [RelatedVia(l, c).value] else [])
  }

  /** `related_concepts[:5]` after the stable sort by strength. */
  function TopRelated(links: seq<JLink>, c: string): seq<Related> {
    Take(SortDesc(RelatedAll(links, c), StrengthOf), 5)
  }

  method RelatedConcepts(links: seq<JLink>, c: string) returns (related: seq<Related>)
    ensures related == TopRelated(links, c)
  {
    var all: seq<Related> := [];
    for k := 0 to |links|
      invariant all == RelatedAll(links[..k], c)
    {
      assert links[..k + 1][..k] == links[..k];
      var link := links[k];
      var w := WeightOf(link);
      var t := Or(link.ltype, "related");
      if link.source == c && link.target != c {
        all := all + [Related(link.target, t, w)];
      } else if link.target == c && link.source != c {
        all := all + [Related(link.source, t, w)];
      }
    }
    assert links[..|links|] == links;
    related := Take(SortDesc(all, StrengthOf), 5);
  }

  /** A link contributes exactly when one of its ends, and only one, is the
      concept; the entry is the other end, with the link's type (default
      `'related'`) and weight (default 1). */
  lemma RelatedViaFacts(l: JLink, c: string)
    ensures RelatedVia(l, c).Some? <==> (l.source == c) != (l.target == c)
    ensures RelatedVia(l, c).Some? ==>
      var r := RelatedVia(l, c).value;
      && r.id != c && (r.id == l.source || r.id == l.target)
      && r.rtype == Or(l.ltype, "related") && r.strength == WeightOf(l)
  {
  }

  /** The related entries are those of the links, one per contributing link
      and in link order: each comes from some link, and the entry of every
      contributing link is present. */
  lemma {:induction false} RelatedAllFacts(links: seq<JLink>, c: string)
    ensures forall r :: r in RelatedAll(links, c) ==> exists i :: 0 <= i < |links| && RelatedVia(links[i], c) == Some(r)
    ensures forall i :: 0 <= i < |links| && RelatedVia(links[i], c).Some? ==> RelatedVia(links[i], c).value in RelatedAll(links, c)
  {
    if links != [] {
      var init := links[..|links| - 1];
      RelatedAllFacts(init, c);
      forall r | r in RelatedAll(links, c) ensures exists i :: 0 <= i < |links| && RelatedVia(links[i], c) == Some(r) {
        if r in RelatedAll(init, c) {
          var i :| 0 <= i < |init| && RelatedVia(init[i], c) == Some(r);
          assert links[i] == init[i];
        } else {
          assert RelatedVia(links[|links| - 1], c) == Some(r);
        }
      }
      forall i | 0 <= i < |links| && RelatedVia(links[i], c).Some? ensures RelatedVia(links[i], c).value in RelatedAll(links, c) {
        if i < |init| {
          assert links[i] == init[i];
        }
      }
    }
  }

  /** The related concepts of the content: at most five, strongest first,
      each the other end of a link that touches the concept at one end, and
      none left out that is stronger than one kept. */
  lemma TopRelatedFacts(links: seq<JLink>, c: string)
    ensures |TopRelated(links, c)| == Min(5, |RelatedAll(links, c)|)
    ensures SortedDesc(TopRelated(links, c), StrengthOf)
    ensures forall r :: r in TopRelated(links, c) ==>
      r.id != c && exists i :: 0 <= i < |links| && RelatedVia(links[i], c) == Some(r)
    ensures forall i, j ::
      (0 <= i < |links| && RelatedVia(links[i], c).Some? && RelatedVia(links[i], c).value !in TopRelated(links, c)
       && 0 <= j < |TopRelated(links, c)|) ==> RelatedVia(links[i], c).value.strength <= TopRelated(links, c)[j].strength
  {
    var all := RelatedAll(links, c);
    var top := TopRelated(links, c);
    TopFacts(all, StrengthOf, 5);
    RelatedAllFacts(links, c);
    forall r | r in top ensures r.id != c && exists i :: 0 <= i < |links| && RelatedVia(links[i], c) == Some(r) {
      assert r in multiset(top);
      assert r in all;
      var i :| 0 <= i < |links| && RelatedVia(links[i], c) == Some(r);
      RelatedViaFacts(links[i], c);
    }
    forall i, j | 0 <= i < |links| && RelatedVia(links[i], c).Some? && RelatedVia(links[i], c).value !in top && 0 <= j < |top|
      ensures RelatedVia(links[i], c).value.strength <= top[j].strength
    {
      assert StrengthOf(RelatedVia(links[i], c).value) <= StrengthOf(top[j]);
    }
  }

  /** The name of the first cluster that lists the concept (`''` when it
      has none), or `None` when no cluster does. */
  function ClusterNameOf(clusters: seq<JCluster>, c: string): Option<string> {
    if clusters == [] then None
    else if c in clusters[0].concepts then Some(Or(clusters[0].name, ""))
    else ClusterNameOf(clusters[1..], c)
  }

  method FindClusterName(clusters: seq<JCluster>, c: string) returns (name: Option<string>)
    ensures name == ClusterNameOf(clusters, c)
  {
    name := None;
    var i := 0;
    while i < |clusters|
      invariant 0 <= i <= |clusters|
      invariant ClusterNameOf(clusters[i..], c) == ClusterNameOf(clusters, c)
    {
      assert clusters[i..][1..] == clusters[i + 1..];
      if c in clusters[i].concepts {
        name := Some(Or(clusters[i].name, ""));
        return;
      }
      i := i + 1;
    }
  }

  /** `None` exactly when no cluster lists the concept; otherwise the name
      of the first cluster that does. */
  lemma {:induction false} ClusterNameFacts(clusters: seq<JCluster>, c: string)
    ensures ClusterNameOf(clusters, c).None? <==> forall k :: 0 <= k < |clusters| ==> c !in clusters[k].concepts
    ensures ClusterNameOf(clusters, c).Some? ==>
      exists k :: 0 <= k < |clusters| && c in clusters[k].concepts && ClusterNameOf(clusters, c).value == Or(clusters[k].name, "")
        && forall j :: 0 <= j < k ==> c !in clusters[j].concepts
  {
    if clusters != [] && c !in clusters[0].concepts {
      var rest := clusters[1..];
      ClusterNameFacts(rest, c);
      forall k | 0 <= k < |rest| ensures rest[k] == clusters[k + 1] {
      }
      if ClusterNameOf(rest, c).Some? {
        var k :| 0 <= k < |rest| && c in rest[k].concepts && ClusterNameOf(rest, c).value == Or(rest[k].name, "")
          && forall j :: 0 <= j < k ==> c !in rest[j].concepts;
        assert c in clusters[k + 1].concepts;
        forall j | 0 <= j < k + 1 ensures c !in clusters[j].concepts {
          if j > 0 {
            assert clusters[j] == rest[j - 1];
          }
        }
      }
      if ClusterNameOf(rest, c).None? {
        forall k | 0 <= k < |clusters| ensures c !in clusters[k].concepts {
          if k > 0 {
            assert clusters[k] == rest[k - 1];
          }
        }
      }
    }
  }

  /** `nodes.get(concept_id, {})`, then the `label`, `type` and `importance`
      with their defaults, the cluster and the top related concepts. */
  function ContentOf(m: JMap, nodes: NodeIndex, c: string): ConceptContent {
    var related := TopRelated(m.links, c);
    var cluster := ClusterNameOf(m.clusters, c);
    if c in nodes.at then
      var node := nodes.at[c];
      ConceptContent(Or(node.caption, c), Or(node.ntype, "concept"), Or(node.importance, 0.5), cluster, related)
    else
      ConceptContent(c, "concept", 0.5, cluster, related)
  }

  method ConceptContentOf(m: JMap, nodes: NodeIndex, c: string) returns (content: ConceptContent)
    ensures content == ContentOf(m, nodes, c)
  {
    var related := RelatedConcepts(m.links, c);
    var cluster := FindClusterName(m.clusters, c);
    var title, ctype, importance := c, "concept", 0.5;
    if c in nodes.at {
      var node := nodes.at[c];
      title := Or(node.caption, c);
      ctype := Or(node.ntype, "concept");
      importance := Or(node.importance, 0.5);
    }
    content := ConceptContent(title, ctype, importance, cluster, related);
  }

  /** The content of a concept that is no node carries only defaults; that
      of a node carries the node's own label, type and importance where the
      node has them. */
  lemma ContentDefaults(m: JMap, nodes: NodeIndex, c: string)
    ensures c !in nodes.at ==>
      ContentOf(m, nodes, c).title == c && ContentOf(m, nodes, c).ctype == "concept" && ContentOf(m, nodes, c).importance == 0.5
    ensures c in nodes.at && nodes.at[c].caption.Some? ==> ContentOf(m, nodes, c).title == nodes.at[c].caption.value
    ensures c in nodes.at && nodes.at[c].importance.Some? ==> ContentOf(m, nodes, c).importance == nodes.at[c].importance.value
  {
  }

  // ---------------------------------------------------------------------------
  // `_determine_pattern_focus`

  /** `cluster.get('id', '')`: `None` is the `''` of a cluster without id. */
  type ClusterKey = Option<int>

  /** How many concepts of the path the cluster lists. */
  function Hits(concepts: seq<string>, path: seq<string>): nat {
    if path == [] then 0
    else Hits(concepts, path[..|path| - 1]) + (if path[|path| - 1] in concepts then 1 else 0)
  }

  function CountOf(counts: map<ClusterKey, nat>, k: ClusterKey): nat {
    if k in counts then counts[k] else 0
  }

  /** `cluster_counts[k] += 1`, `n` times. */
  function Bump(counts: map<ClusterKey, nat>, k: ClusterKey, n: nat): map<ClusterKey, nat> {
    if n == 0 then counts else counts[k := CountOf(counts, k) + n]
  }

  /** `cluster_counts` after the loop over the clusters. */
  function Counts(clusters: seq<JCluster>, path: seq<string>): map<ClusterKey, nat> {
    if clusters == [] then map[]
    else
      var c := clusters[|clusters| - 1];
      Bump(Counts(clusters[..|clusters| - 1], path), c.id, Hits(c.concepts, path))
  }

  /** High when one cluster id holds at least 70% of the path, else medium
      when one to three cluster ids occur, else low. */
  function FocusOf(counts: map<ClusterKey, nat>, n: nat): Level {
    if |counts| > 0 && exists k :: k in counts && counts[k] as real >= n as real * 0.7 then High
    else if 0 < |counts| <= 3 then Medium
    else Low
  }

  method PatternFocus(path: seq<string>, clusters: seq<JCluster>) returns (focus: Level)
    ensures focus == FocusOf(Counts(clusters, path), |path|)
  {
    var counts: map<ClusterKey, nat> := map[];
    for i := 0 to |clusters|
      invariant counts == Counts(clusters[..i], path)
    {
      assert clusters[..i + 1][..i] == clusters[..i];
      var id := clusters[i].id;
      ghost var before := counts;
      for j := 0 to |path|
        invariant counts == Bump(before, id, Hits(clusters[i].concepts, path[..j]))
      {
        assert path[..j + 1][..j] == path[..j];
        if path[j] in clusters[i].concepts {
          counts := counts[id := CountOf(counts, id) + 1];
        }
      }
      assert path[..|path|] == path;
    }
    assert clusters[..|clusters|] == clusters;
    focus := FocusOf(counts, |path|);
  }

  /** The concepts of the path listed by the clusters with id `k`, summed
      over those clusters. */
  function Total(clusters: seq<JCluster>, k: ClusterKey, path: seq<string>): nat {
    if clusters == [] then 0
    else
      var c := clusters[|clusters| - 1];
      Total(clusters[..|clusters| - 1], k, path) + (if c.id == k then Hits(c.concepts, path) else 0)
  }

  /** A cluster id is counted exactly when its clusters list some concept
      of the path, and its count is the total they list. */
  lemma {:induction false} CountsTotal(clusters: seq<JCluster>, path: seq<string>)
    ensures forall k :: k in Counts(clusters, path) <==> Total(clusters, k, path) > 0
    ensures forall k :: k in Counts(clusters, path) ==> Counts(clusters, path)[k] == Total(clusters, k, path)
  {
    if clusters != [] {
      CountsTotal(clusters[..|clusters| - 1], path);
    }
  }

  /** The ids of the clusters that list some concept of the path. */
  function Touched(clusters: seq<JCluster>, path: seq<string>): set<ClusterKey> {
    set j | 0 <= j < |clusters| && Hits(clusters[j].concepts, path) > 0 :: clusters[j].id
  }

  /** A positive total belongs to an id some cluster of the path carries. */
  lemma {:induction false} TotalTouched(clusters: seq<JCluster>, k: ClusterKey, path: seq<string>)
    ensures Total(clusters, k, path) > 0 <==> k in Touched(clusters, path)
  {
    if clusters != [] {
      var init := clusters[..|clusters| - 1];
      var c := clusters[|clusters| - 1];
      TotalTouched(init, k, path);
      if k in Touched(init, path) {
        var j :| 0 <= j < |init| && Hits(init[j].concepts, path) > 0 && init[j].id == k;
        assert clusters[j] == init[j];
      }
      if k in Touched(clusters, path) {
        var j :| 0 <= j < |clusters| && Hits(clusters[j].concepts, path) > 0 && clusters[j].id == k;
        if j < |init| {
          assert clusters[j] == init[j];
        }
      }
    }
  }

  /** The pattern focus in terms of the clusters themselves: high exactly
      when the clusters of one id list at least 70% of the path, medium
      exactly when otherwise one to three ids are touched, low otherwise. */
  lemma FocusFacts(clusters: seq<JCluster>, path: seq<string>)
    ensures Counts(clusters, path).Keys == Touched(clusters, path)
    ensures FocusOf(Counts(clusters, path), |path|) == High <==>
      exists k :: k in Touched(clusters, path) && Total(clusters, k, path) as real >= |path| as real * 0.7
    ensures FocusOf(Counts(clusters, path), |path|) == Medium <==>
      (forall k :: k in Touched(clusters, path) ==> (Total(clusters, k, path) as real) < |path| as real * 0.7)
      && 1 <= |Touched(clusters, path)| <= 3
  {
    var counts := Counts(clusters, path);
    CountsTotal(clusters, path);
    forall k ensures k in counts <==> k in Touched(clusters, path) {
      TotalTouched(clusters, k, path);
    }
    assert counts.Keys == Touched(clusters, path);
  }

  // ---------------------------------------------------------------------------
  // `_determine_complexity`

  /** `nodes.get(concept, {}).get('importance', 0.5)` */
  function ImportanceIn(nodes: NodeIndex, c: string): real {
    if c in nodes.at then Or(nodes.at[c].importance, 0.5) else 0.5
  }

  function Importances(nodes: NodeIndex, path: seq<string>): (r: seq<real>)
    ensures |r| == |path|
    ensures forall i :: 0 <= i < |path| ==> r[i] == ImportanceIn(nodes, path[i])
  {
    if path == [] then [] else Importances(nodes, path[..|path| - 1]) + [ImportanceIn(nodes, path[|path| - 1])]
  }

  /** The average importance, 0.5 for an empty path. */
  function MeanImportance(nodes: NodeIndex, path: seq<string>): real {
    if path == [] then 0.5 else Sum(Importances(nodes, path)) / |path| as real
  }

  /** Above 0.7 high, above 0.4 medium, else low. */
  function ComplexityOf(nodes: NodeIndex, path: seq<string>): Level {
    var a := MeanImportance(nodes, path);
    if a > 0.7 then High else if a > 0.4 then Medium else Low
  }

  /** Comparing a quotient with a threshold without dividing. */
  lemma Quotient(s: real, n: real, t: real)
    requires n > 0.0
    ensures s / n > t <==> s > n * t
  {
    var a := s / n;
    assert s == n * a;
    if a > t {
      Scale(n, a, t);
    } else if a < t {
      Scale(n, t, a);
    }
  }

  lemma Scale(n: real, a: real, b: real)
    requires n > 0.0 && a > b
    ensures n * a > n * b
  {
    assert n * a - n * b == n * (a - b);
  }

  /** The complexity without division: an empty path is medium; otherwise
      high exactly when the importances sum to more than 0.7 per concept,
      low exactly when they sum to at most 0.4 per concept. */
  lemma {:induction false} ComplexitySums(nodes: NodeIndex, path: seq<string>)
    ensures path == [] ==> ComplexityOf(nodes, path) == Medium
    ensures path != [] ==> (ComplexityOf(nodes, path) == High <==> Sum(Importances(nodes, path)) > |path| as real * 0.7)
    ensures path != [] ==> (ComplexityOf(nodes, path) == Low <==> Sum(Importances(nodes, path)) <= |path| as real * 0.4)
  {
    if path != [] {
      var s := Sum(Importances(nodes, path));
      var n := |path| as real;
      Quotient(s, n, 0.7);
      Quotient(s, n, 0.4);
    }
  }

  /** Every concept of the path has importance above `t`. */
  predicate AllAbove(nodes: NodeIndex, path: seq<string>, t: real) {
    forall c :: c in path ==> ImportanceIn(nodes, c) > t
  }

  /** Every concept of the path has importance at most `t`. */
  predicate AllAtMost(nodes: NodeIndex, path: seq<string>, t: real) {
    forall c :: c in path ==> ImportanceIn(nodes, c) <= t
  }

  /** The thresholds of the complexity, applied to every concept, bound
      the sum of the importances. */
  lemma {:induction false} ImportanceSum(nodes: NodeIndex, path: seq<string>)
    ensures path != [] && AllAbove(nodes, path, 0.7) ==> Sum(Importances(nodes, path)) > |path| as real * 0.7
    ensures path != [] && AllAbove(nodes, path, 0.4) ==> Sum(Importances(nodes, path)) > |path| as real * 0.4
    ensures AllAtMost(nodes, path, 0.7) ==> Sum(Importances(nodes, path)) <= |path| as real * 0.7
    ensures AllAtMost(nodes, path, 0.4) ==> Sum(Importances(nodes, path)) <= |path| as real * 0.4
  {
    if path != [] {
      var init := path[..|path| - 1];
      var last := path[|path| - 1];
      ImportanceSum(nodes, init);
      assert forall c :: c in init ==> c in path;
      assert last in path;
      assert Sum(Importances(nodes, path)) == Sum(Importances(nodes, init)) + ImportanceIn(nodes, last);
    }
  }

  /** Importances on the same side of a threshold throughout decide the
      complexity: all above 0.7 is high, all at most 0.4 is low, and all
      above 0.4 and at most 0.7 is medium. */
  lemma ComplexityOfImportances(nodes: NodeIndex, path: seq<string>)
    requires path != []
    ensures AllAbove(nodes, path, 0.7) ==> ComplexityOf(nodes, path) == High
    ensures AllAtMost(nodes, path, 0.4) ==> ComplexityOf(nodes, path) == Low
    ensures AllAbove(nodes, path, 0.4) && AllAtMost(nodes, path, 0.7) ==> ComplexityOf(nodes, path) == Medium
  {
    ImportanceSum(nodes, path);
    ComplexitySums(nodes, path);
  }

  // ---------------------------------------------------------------------------
  // `generate_journey`

  datatype Metadata = Metadata(patternFocus: Level, complexity: Level, journeyType: JourneyType)

  datatype JourneyResult = JourneyResult(
    start: string,
    path: seq<string>,
    content: map<string, ConceptContent>,
    metadata: Metadata)

  /** The journey returned for a missing map, an empty start or an unknown
      start: no path and the default metadata. */
  function Degenerate(start: string): JourneyResult {
    JourneyResult(start, [], map[], Metadata(Medium, Medium, DefaultJourney))
  }

  /** A map is given, the start is a true id, and it is a node. */
  predicate Live(km: Option<JMap>, start: string) {
    km.Some? && start != "" && start in Indexed(km.value.nodes).at
  }

  /** The journey type chosen for a start that is a node. */
  function Chosen(m: JMap, start: string, prefs: Preferences): JourneyType
    requires start in Indexed(m.nodes).at
  {
    JourneyTypeOf(prefs, Indexed(m.nodes).at[start].ntype)
  }

  /** The path has the shape its journey type's builder promises. */
  ghost predicate PathFor(m: JMap, start: string, jt: JourneyType, path: seq<string>) {
    var nodes := Indexed(m.nodes);
    var graph := GraphOf(m.links);
    && (jt == PatternBased ==> PatternOutcome(path, start, nodes, graph, m.clusters))
    && (jt == Hierarchical ==> HierarchyShaped(path, start, nodes, m.hierarchy))
    && (jt == Associative ==> WalkShaped(path, start, nodes, graph))
    && jt != DefaultJourney
  }

  /** One content entry per concept of the path, each that concept's content. */
  ghost predicate ContentFor(m: JMap, path: seq<string>, content: map<string, ConceptContent>) {
    && (forall x :: x in content <==> x in path)
    && (forall x :: x in content ==> content[x] == ContentOf(m, Indexed(m.nodes), x))
  }

  /** The journey of a live start: its type, a path shaped for it, the
      content of the path and the metadata computed from the path. */
  ghost predicate Generated(m: JMap, start: string, prefs: Preferences, j: JourneyResult)
    requires start in Indexed(m.nodes).at
  {
    && j.start == start
    && j.metadata.journeyType == Chosen(m, start, prefs)
    && PathFor(m, start, Chosen(m, start, prefs), j.path)
    && ContentFor(m, j.path, j.content)
    && j.metadata.patternFocus == FocusOf(Counts(m.clusters, j.path), |j.path|)
    && j.metadata.complexity == ComplexityOf(Indexed(m.nodes), j.path)
  }

  /** The hierarchical builder raises for this start. */
  predicate Raising(m: JMap, start: string, prefs: Preferences)
    requires start in Indexed(m.nodes).at
  {
    && Chosen(m, start, prefs) == Hierarchical
    && start !in m.hierarchy.roots && ParentOf(start, m.hierarchy).Raises?
  }

  /** The path builder of the journey type; only the hierarchical one can fail. */
  method JourneyPath(m: JMap, nodes: NodeIndex, graph: Adjacency, start: string, jt: JourneyType, draw: nat -> nat)
    returns (r: Result<seq<string>>)
    requires nodes == Indexed(m.nodes) && graph == GraphOf(m.links) && Valid(nodes)
    requires jt != DefaultJourney
    ensures r.Failure? <==> jt == Hierarchical && start !in m.hierarchy.roots && ParentOf(start, m.hierarchy).Raises?
    ensures r.Failure? ==> r.error == "RecursionError"
    ensures r.Success? ==> PathFor(m, start, jt, r.value)
  {
    if jt == PatternBased {
      var path := PatternPath(start, nodes, graph, m.clusters, draw);
      r := Success(path);
    } else if jt == Hierarchical {
      r := HierarchicalPath(start, nodes, m.hierarchy, draw);
    } else {
      assert jt == Associative;
      var path := AssociativePath(start, nodes, graph, draw);
      r := Success(path);
    }
  }

  /** `content[concept_id] = self._generate_concept_content(...)` for each
      concept of the path. */
  method JourneyContent(m: JMap, nodes: NodeIndex, path: seq<string>) returns (content: map<string, ConceptContent>)
    requires nodes == Indexed(m.nodes)
    ensures ContentFor(m, path, content)
  {
    content := map[];
    for i := 0 to |path|
      invariant forall x :: x in content <==> x in path[..i]
      invariant forall x :: x in content ==> content[x] == ContentOf(m, nodes, x)
    {
      assert path[..i + 1] == path[..i] + [path[i]];
      var c := ConceptContentOf(m, nodes, path[i]);
      content := content[path[i] := c];
    }
    assert path[..|path|] == path;
  }

  method GenerateJourney(km: Option<JMap>, start: string, prefs: Preferences, draw: nat -> nat)
    returns (r: Result<JourneyResult>)
    ensures !Live(km, start) ==> r == Success(Degenerate(start))
    ensures Live(km, start) ==> (r.Failure? <==> Raising(km.value, start, prefs))
    ensures r.Failure? ==> r.error == "RecursionError"
    ensures Live(km, start) && r.Success? ==> Generated(km.value, start, prefs, r.value)
  {
    if km.None? || start == "" {
      return Success(Degenerate(start));
    }
    var m := km.value;
    var nodes := IndexNodes(m.nodes);
    var graph := BuildGraph(m.links);
    if start !in nodes.at {
      return Success(Degenerate(start));
    }
    IndexedOrder(m.nodes);
    var jt := JourneyTypeOf(prefs, nodes.at[start].ntype);
    JourneyTypeCases(prefs, nodes.at[start].ntype);
    var built := JourneyPath(m, nodes, graph, start, jt, draw);
    if built.Failure? {
      return Failure(built.error);
    }
    var path := built.value;
    var content := JourneyContent(m, nodes, path);
    var focus := PatternFocus(path, m.clusters);
    var complexity := ComplexityOf(nodes, path);
    r := Success(JourneyResult(start, path, content, Metadata(focus, complexity, jt)));
  }

  /** Every generated journey of a live start has a path of one to six
      distinct concepts that contains the start, and content for exactly
      those concepts. */
  lemma GeneratedPath(m: JMap, start: string, prefs: Preferences, j: JourneyResult)
    requires start in Indexed(m.nodes).at
    requires Generated(m, start, prefs, j)
    ensures 1 <= |j.path| <= 6 && start in j.path && Distinct(j.path)
    ensures j.content.Keys == set x | x in j.path
  {
    var jt := Chosen(m, start, prefs);
    if jt != Hierarchical {
      assert j.path[0] == start;
    }
  }

  // ---------------------------------------------------------------------------
  // Known ids.

  /** `x` is the id of some node of the map. */
  predicate NodeId(m: JMap, x: string) {
    exists i :: 0 <= i < |m.nodes| && m.nodes[i].id == x
  }

  /** Every concept the map names outside its node list (link ends,
      cluster concepts, hierarchy roots and tree children) is a node id, as
      in a map built by the mapper from one concept list. */
  ghost predicate Closed(m: JMap) {
    && (forall i :: 0 <= i < |m.links| ==> NodeId(m, m.links[i].source) && NodeId(m, m.links[i].target))
    && (forall k, x :: 0 <= k < |m.clusters| && x in m.clusters[k].concepts ==> NodeId(m, x))
    && (forall x :: x in m.hierarchy.roots ==> NodeId(m, x))
    && (forall r, x :: r in m.hierarchy.tree && x in m.hierarchy.tree[r] ==> NodeId(m, x))
  }

  /** The keys of the node dictionary are exactly the node ids. */
  lemma NodeIdIndexed(m: JMap, x: string)
    ensures NodeId(m, x) <==> x in Indexed(m.nodes).at
  {
    IndexedValues(m.nodes);
    if x in Indexed(m.nodes).at {
      assert LastWith(m.nodes, x, Indexed(m.nodes).at[x]);
    }
  }

  lemma NeighbourKnown(m: JMap, x: string, e: (string, real))
    requires Closed(m) && e in AdjOf(GraphOf(m.links), x)
    ensures NodeId(m, e.0)
  {
    GraphNeighbours(m.links, x);
    NeighboursFacts(m.links, x);
    assert (e.0, e.1) in Neighbours(m.links, x) by {
      assert (e.0, e.1) == e;
    }
    assert exists i :: 0 <= i < |m.links| && Joins(m.links[i], x, e.0) && WeightOf(m.links[i]) == e.1;
    var i :| 0 <= i < |m.links| && Joins(m.links[i], x, e.0);
    assert NodeId(m, m.links[i].source) && NodeId(m, m.links[i].target);
  }

  lemma TopNeighbourKnown(m: JMap, x: string, y: string, n: nat)
    requires Closed(m) && NamedIn(y, Take(SortDesc(AdjOf(GraphOf(m.links), x), Weight), n))
    ensures NodeId(m, y)
  {
    var adj := AdjOf(GraphOf(m.links), x);
    var top := Take(SortDesc(adj, Weight), n);
    TopFacts(adj, Weight, n);
    var i :| 0 <= i < |top| && top[i].0 == y;
    assert top[i] in multiset(top);
    assert top[i] in adj;
    NeighbourKnown(m, x, top[i]);
  }

  lemma DefaultKnown(m: JMap, start: string, path: seq<string>)
    requires Closed(m) && NodeId(m, start)
    requires DefaultShaped(path, start, Indexed(m.nodes), GraphOf(m.links))
    ensures forall x :: x in path ==> NodeId(m, x)
  {
    forall x | x in path ensures NodeId(m, x) {
      NodeIdIndexed(m, x);
      if NamedIn(x, TopNeighbours(GraphOf(m.links), start)) {
        TopNeighbourKnown(m, start, x, 3);
      }
    }
  }

  lemma PatternKnown(m: JMap, start: string, path: seq<string>)
    requires Closed(m) && NodeId(m, start)
    requires PatternOutcome(path, start, Indexed(m.nodes), GraphOf(m.links), m.clusters)
    ensures forall x :: x in path ==> NodeId(m, x)
  {
    if forall j :: 0 <= j < |m.clusters| ==> start !in m.clusters[j].concepts {
      DefaultKnown(m, start, path);
    } else {
      var k: nat :| Primary(m.clusters, start, k) && PatternShaped(path, start, Indexed(m.nodes), GraphOf(m.links), m.clusters[k].concepts);
      forall x | x in path ensures NodeId(m, x) {
        NodeIdIndexed(m, x);
      }
    }
  }

  lemma HierarchyKnown(m: JMap, start: string, path: seq<string>)
    requires Closed(m) && NodeId(m, start)
    requires HierarchyFrom(path, start, Indexed(m.nodes), m.hierarchy)
    ensures forall x :: x in path ==> NodeId(m, x)
  {
    var h := m.hierarchy;
    var parent := ParentName(ParentOf(start, h));
    if parent != "" {
      FindParentFacts(start, h.roots, h.tree, 0);
      var k :| 0 <= k < |h.roots| && h.roots[k] == parent;
      assert parent in h.roots;
    }
    forall x | x in path ensures NodeId(m, x) {
      NodeIdIndexed(m, x);
    }
  }

  lemma WalkKnown(m: JMap, start: string, path: seq<string>)
    requires Closed(m) && NodeId(m, start)
    requires WalkShaped(path, start, Indexed(m.nodes), GraphOf(m.links))
    ensures forall x :: x in path ==> NodeId(m, x)
  {
    var nodes := Indexed(m.nodes);
    var graph := GraphOf(m.links);
    forall x | x in path ensures NodeId(m, x) {
      var i :| 0 <= i < |path| && path[i] == x;
      if i > 0 {
        assert Step(path[..i], x, nodes, graph);
        StepKnown(m, path[..i], x);
      }
    }
  }

  /** A step of the walk in a closed map goes to a node id. */
  lemma StepKnown(m: JMap, prefix: seq<string>, x: string)
    requires Closed(m) && Step(prefix, x, Indexed(m.nodes), GraphOf(m.links))
    ensures NodeId(m, x)
  {
    NodeIdIndexed(m, x);
    var adj := AdjOf(GraphOf(m.links), prefix[|prefix| - 1]);
    var f := FirstUnvisited(SortDesc(adj, Weight), prefix);
    if f.Some? && f.value.0 != "" {
      Heaviest(adj, prefix);
      NeighbourKnown(m, prefix[|prefix| - 1], f.value);
    }
  }

  /** In a closed map every concept of a generated journey is a node id. */
  lemma JourneyKnown(m: JMap, start: string, prefs: Preferences, j: JourneyResult)
    requires start in Indexed(m.nodes).at
    requires Generated(m, start, prefs, j) && Closed(m)
    ensures forall x :: x in j.path ==> NodeId(m, x)
  {
    NodeIdIndexed(m, start);
    var jt := Chosen(m, start, prefs);
    if jt == PatternBased {
      PatternKnown(m, start, j.path);
    } else if jt == Hierarchical {
      HierarchyShapedFrom(j.path, start, Indexed(m.nodes), m.hierarchy);
      HierarchyKnown(m, start, j.path);
    } else {
      WalkKnown(m, start, j.path);
    }
  }
}
