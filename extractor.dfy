/** `KnowledgeExtractor.extract_knowledge` (extractor.py): concepts, then
    relationships, then the hierarchy and the clusters, from one processed
    document. The NLP pass is an input: what spaCy would report about the
    text (noun phrases, entities, key terms, the token count, sentences and
    dependency triples), and what community detection reports about the
    relationship graph. */
module Extractor {
  import opened Util
  import opened Concepts
  import opened Relationships
  import opened RelationshipExtraction
  import opened Hierarchy
  import opened Clusters

  /** What the NLP pass reports about a non-empty text. */
  datatype NlpOutput = NlpOutput(
    phrases: seq<string>, entities: seq<Entity>, terms: seq<string>, tokenCount: nat,
    sentences: seq<string>, deps: seq<Dependency>)

  /** The result of community detection: a node-to-cluster partition from
      the Louvain method, or the connected components when that module is
      not installed. */
  datatype Detection = Partition(assignment: seq<(string, nat)>) | Components(components: seq<seq<string>>)

  /** `{'concepts': ..., 'relationships': ..., 'hierarchy': ..., 'clusters': ...}`;
      an absent hierarchy is the empty dictionary. */
  datatype Knowledge = Knowledge(
    concepts: seq<Concept>, relationships: seq<Relationship>,
    hierarchy: Option<HierarchyResult>, clusters: seq<Cluster>)

  /** The NLP output is self-consistent: phrases and terms come from tokens,
      and they are cleaned as `_extract_concepts` cleans them. */
  predicate Consistent(nlp: NlpOutput) {
    (nlp.tokenCount > 0 || (nlp.phrases == [] && nlp.terms == []))
    && WellFormedInput(nlp.phrases, nlp.terms)
  }

  function GroupsOf(d: Detection): seq<Group> {
    match d
    case Partition(p) => Grouped(p)
    case Components(c) => Enumerated(c)
  }

  function ConceptsOf(nlp: NlpOutput): seq<Concept> {
    Ranked(nlp.phrases, nlp.entities, nlp.terms, nlp.tokenCount)
  }

  function KnowledgeOf(content: Option<string>, nlp: NlpOutput, detection: Detection): Result<Knowledge>
    requires Consistent(nlp)
  {
    var text := if content.Some? then content.value else "";
    if text == [] then Success(Knowledge([], [], None, []))
    else
      var cs := ConceptsOf(nlp);
      match RelationshipsOf(cs, nlp.sentences, nlp.deps)
      case Failure(e) => Failure(e)
      case Success(rs) =>
        ConceptsCaseDistinct(nlp.phrases, nlp.entities, nlp.terms, nlp.tokenCount);
        CaseDistinctTexts(cs);
        Success(Knowledge(cs, rs, Some(HierarchyOf(cs)), ClustersOf(cs, GroupsOf(detection))))
  }

  method ExtractKnowledge(content: Option<string>, nlp: NlpOutput, detection: Detection)
    returns (r: Result<Knowledge>)
    requires Consistent(nlp)
    ensures r == KnowledgeOf(content, nlp, detection)
  {
    var text := if content.Some? then content.value else "";
    if text == [] {
      return Success(Knowledge([], [], None, []));
    }
    var concepts := ExtractConcepts(nlp.phrases, nlp.entities, nlp.terms, nlp.tokenCount);
    var relationships := ExtractRelationships(concepts, nlp.sentences, nlp.deps);
    if relationships.Failure? {
      return Failure(relationships.error);
    }
    ConceptsCaseDistinct(nlp.phrases, nlp.entities, nlp.terms, nlp.tokenCount);
    CaseDistinctTexts(concepts);
    var hierarchy := GenerateHierarchy(concepts);
    var groups: seq<Group>;
    match detection {
      case Partition(p) =>
        groups := GroupPartition(p);
      case Components(c) =>
        groups := Enumerated(c);
    }
    var clusters := GenerateClusters(concepts, groups);
    r := Success(Knowledge(concepts, relationships.value, Some(hierarchy), clusters));
  }

  /** No content, or empty content, gives empty lists and an empty hierarchy. */
  lemma EmptyContent(nlp: NlpOutput, detection: Detection)
    requires Consistent(nlp)
    ensures KnowledgeOf(None, nlp, detection) == Success(Knowledge([], [], None, []))
    ensures KnowledgeOf(Some(""), nlp, detection) == Success(Knowledge([], [], None, []))
  {
  }

  /** For non-empty content the extraction fails, with `KeyError`, exactly
      when a syntactic link meets a co-occurrence edge; otherwise every part
      comes from the same concept list. */
  lemma KnowledgeFacts(content: Option<string>, nlp: NlpOutput, detection: Detection)
    requires Consistent(nlp) && content.Some? && content.value != []
    ensures var cs := ConceptsOf(nlp);
      && (KnowledgeOf(content, nlp, detection).Failure? <==> Conflict(Contributions(cs, nlp.sentences, nlp.deps)))
      && (KnowledgeOf(content, nlp, detection).Failure? ==> KnowledgeOf(content, nlp, detection).error == "KeyError")
    ensures KnowledgeOf(content, nlp, detection).Success? ==>
      var k := KnowledgeOf(content, nlp, detection).value;
      && k.concepts == ConceptsOf(nlp)
      && CaseDistinct(k.concepts) && |k.concepts| <= 100 && SortedDesc(k.concepts, Importance)
      && k.hierarchy.Some?
      && (k.concepts != [] ==> k.hierarchy.value.roots != [])
      && (forall r :: r in k.hierarchy.value.roots ==> r in Texts(k.concepts))
      && |k.clusters| == |GroupsOf(detection)|
  {
    var cs := ConceptsOf(nlp);
    RelationshipsFailure(cs, nlp.sentences, nlp.deps);
    ConceptsCaseDistinct(nlp.phrases, nlp.entities, nlp.terms, nlp.tokenCount);
    RankedFacts(nlp.phrases, nlp.entities, nlp.terms, nlp.tokenCount);
    CaseDistinctTexts(cs);
    RootsFacts(cs);
    SortDescFacts(GroupsOf(detection), Size);
  }
}
