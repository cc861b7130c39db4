# cognify knowledge core in Dafny

This project models the knowledge pipeline of cognify in Dafny and proves properties of the model. cognify turns a learning document into a knowledge map and then into a personalised learning journey. The pipeline has four parts:

1. **Document structure** (`src/processors/text_processor.py`, `_extract_basic_structure`). The text is split into lines. Runs of non-blank stripped lines become paragraphs. Two kinds of line become headings: `#`-headings of level 1 to 6, and lines underlined with `=` or `-`.
2. **Knowledge extraction** (`src/knowledge/extractor.py`), in four steps:
   - **Concepts.** Frequent noun phrases, then named entities, then frequent key terms, ranked by importance; the 100 most important are kept.
   - **Relationships.** There are two passes.
     - *Co-occurrence:* concepts found in the same sentence are linked.
     - *Syntactic:* subject/object dependencies between concepts are added.

     Both passes work on an undirected graph.
   - **Hierarchy.** A concept contains another when its lower-cased text occurs in the other's. This gives a containment graph. The hierarchy's roots are the up-to-five concepts with no parent, and each root has a recursive subtree.
   - **Clusters.** These are communities, or connected components, sorted by size. Each is named after its most important concept.
3. **Knowledge map** (`src/knowledge/mapper.py`). The map has nodes with normalised positions and importance-scaled sizes, links, clusters with centres, and metadata.
4. **Learning journey** (`src/knowledge/journey.py`):
   - a journey type chosen from the preferences or from the start concept's type;
   - a path built by one of the three type builders, with the default builder as a fallback;
   - content for each concept on the path;
   - a pattern focus and a complexity level.

The model follows the source file by file:

| file | modules |
|---|---|
| `text_processor.py` | `TextStructure` |
| `extractor.py` | `Concepts`, `RelationshipExtraction`, `Relationships`, `Hierarchy`, `Clusters`, `Extractor` |
| `mapper.py` | `MapperGraph`, `Mapper` |
| `journey.py` | `JourneyMap`, `JourneyPaths`, `Journey` |

Three modules are shared:

- `Util`: sequences, stable descending sort, dedup, sums.
- `Text`: strip, lower, split, words, `str(n)`.
- `Undirected`: networkx's node-ordered edge view of an undirected graph.

**How the model is written.**

- **Loops and accumulators.** The source works by loops over accumulating lists and dictionaries. The model writes each one as a `method` with a loop and its invariants. Each method is proved equal to a specification function. The properties the source promises are then proved about that function as lemmas.
- **Dictionaries.** A Python dictionary keeps insertion order, so it is modelled as a sequence of keys or key/value pairs. Examples are the `concept_map`, the networkx node and edge tables, and the journey's `nodes` dictionary.
- **Errors.** Exceptions the code can raise become `Failure` results. Examples are the `KeyError` of the syntactic pass and of the mapper, and the `RecursionError` of `_is_descendant` on a cyclic tree.
- **Library results as inputs.** The model takes these results as parameters:
  - what spaCy reports: the cleaned noun phrases, entities, key terms, token count, sentences and dependency triples;
  - the community partition, or the connected components;
  - the `spring_layout` positions;
  - an arbitrary `draw: nat -> nat` that stands for `random.sample` and `random.choice`.

  Every property about those results holds for every input and every draw.

## Model

| member | source | states |
|---|---|---|
| Text.StripFacts | src/processors/text_processor.py:94 | `strip()` returns one unbroken slice of the line; everything cut from either end is white space, and neither end of the result is white space |
| Text.LStripFacts | src/processors/text_processor.py:94 | Stripping the front removes a prefix made only of white space and stops at the first other character |
| Text.RStripFacts | src/processors/text_processor.py:94 | Stripping the back removes a suffix made only of white space and stops at the last other character |
| Text.StripEmptyIff | src/processors/text_processor.py:95 | A line is blank after stripping exactly when it is made only of white space |
| Text.SplitJoin | src/processors/text_processor.py:89 | Splitting on `'\n'` and joining again gives back the text; every piece is free of the separator |
| Text.LowerIdempotent | src/knowledge/extractor.py:157 | Lower-casing twice is lower-casing once |
| Text.WordsOfWord | src/knowledge/extractor.py:125 | A non-empty text without spaces is its own only word under `split()` |
| Text.NatToStringValue | src/knowledge/extractor.py:336 | The decimal digits of `str(id)` read back as the id |
| TextStructure.ExtractBasicStructure | src/processors/text_processor.py:87-143 | Returns the paragraphs and the headings of the lines of the text, and counts equal to their numbers |
| TextStructure.CollectParagraphs | src/processors/text_processor.py:89-104 | The accumulate-and-flush loop returns the paragraphs: each run of non-blank stripped lines, joined by a space |
| TextStructure.ParagraphsFacts | src/processors/text_processor.py:89-104 | No paragraph is empty; there is exactly one paragraph per run of non-blank lines |
| TextStructure.CountHashes | src/processors/text_processor.py:112-117 | Counting leading `#` stops at the first other character |
| TextStructure.HeadingOfLine | src/processors/text_processor.py:108-136 | The heading test on raw line `i` is the heading its stripped line gives |
| TextStructure.CollectHeadings | src/processors/text_processor.py:107-136 | The loop lists the heading of every line that has one, in line order |
| TextStructure.HeadingsFacts | src/processors/text_processor.py:107-136 | Headings are in strictly increasing line order. Each is the heading its line gives. Every line that gives a heading is listed |
| TextStructure.HashHeading | src/processors/text_processor.py:111-123 | 1 to 6 leading `#` give a heading of that level; its text is the stripped rest |
| TextStructure.TooManyHashes | src/processors/text_processor.py:118 | Seven or more leading `#` give no heading, whatever the next line is |
| TextStructure.UnderlinedHeading | src/processors/text_processor.py:125-136 | A non-`#` line before a non-empty line made only of `=` is level 1; only of `-`, level 2 |
| TextStructure.NoHeading | src/processors/text_processor.py:108-136 | In three cases a line that is not a `#` line gives no heading: it is the last line, the next line is blank, or the next line is not a rule |
| Concepts.TallyFacts | src/knowledge/extractor.py:79 | `Counter` items list each distinct phrase once, with its number of occurrences |
| Concepts.MostCommonFacts | src/knowledge/extractor.py:103 | `most_common(n)`: lists `min(n, #keys)` distinct keys with their true counts, most frequent first; no omitted key is more frequent than a listed one |
| Concepts.ExtractConcepts | src/knowledge/extractor.py:99-137 | The merge loops and the sort return the ranked concept list |
| Concepts.PhraseConceptsFacts | src/knowledge/extractor.py:102-110 | A listed phrase becomes a concept exactly when its count is at least 2; its frequency is the count and its importance is count / token count |
| Concepts.PhraseConceptsDistinct | src/knowledge/extractor.py:102-110 | Phrase concepts are unique up to case, and each is a listed phrase |
| Concepts.WithEntitiesFacts | src/knowledge/extractor.py:112-121 | Entities are only appended. Each added concept is an entity with frequency 1 and importance 0.8. Afterwards every entity's text is present up to case. Case uniqueness is kept |
| Concepts.WithTermsFacts | src/knowledge/extractor.py:123-131 | Key terms are only appended, and each added one has a count of at least 3. An added term was not a word of any concept before it. Afterwards every such term is a word of some concept or was itself added |
| Concepts.WithTermsDistinct | src/knowledge/extractor.py:123-131 | The term step never adds a case duplicate |
| Concepts.ConceptsCaseDistinct | src/knowledge/extractor.py:99-137 | The merged and the ranked concepts have texts unique up to case |
| Concepts.RankedFacts | src/knowledge/extractor.py:133-137 | At most 100 concepts, sorted by importance and drawn from the merged list; none left out is more important than one kept |
| Util.SortDescFacts | src/knowledge/extractor.py:134 | `sort(key, reverse=True)` is a permutation, sorted descending, and stable: equal keys keep their order |
| Util.TopFacts | src/knowledge/extractor.py:134-137 | A sorted prefix `[:n]` has `min(n, len)` elements drawn from the list; nothing omitted has a larger key than anything kept |
| Util.ArgMax | src/knowledge/journey.py:145 | `max(key=...)` picks an element of greatest key, and the first such |
| Util.DedupFacts | src/knowledge/extractor.py:157 | Dictionary keys or graph nodes in insertion order: every element once, nothing else |
| RelationshipExtraction.ExtractRelationships | src/knowledge/extractor.py:139-228 | The method returns the relationships of the two passes, or the `KeyError` they raise |
| RelationshipExtraction.AddNodes | src/knowledge/extractor.py:147-148 | One graph node per concept text |
| RelationshipExtraction.BuildConceptMap | src/knowledge/extractor.py:157 | The dictionary comprehension builds the concept map |
| RelationshipExtraction.ConceptMapFacts | src/knowledge/extractor.py:157 | One entry per lower-cased text, in order of first appearance, mapped to the text of the last concept with it |
| RelationshipExtraction.ConceptMapValues | src/knowledge/extractor.py:157 | Values are distinct concept texts, each lower-casing to its key |
| RelationshipExtraction.SentenceConcepts | src/knowledge/extractor.py:163-167 | The loop collects the concepts whose key occurs in the sentence |
| RelationshipExtraction.SentenceConceptsFacts | src/knowledge/extractor.py:160-167 | A sentence's concepts are distinct texts occurring in it up to case. Every concept occurring there is represented by the last concept with its lower-cased text |
| RelationshipExtraction.CoOccurrenceEdges | src/knowledge/extractor.py:160-179 | The sentence loop folds every sentence's concept pairs into the edges |
| RelationshipExtraction.SentenceEdges | src/knowledge/extractor.py:170-179 | The double pair loop adds the pairs `i < j` of one sentence, in loop order |
| RelationshipExtraction.RowEdges | src/knowledge/extractor.py:171-179 | The inner loop adds `sc[i]` paired with every later concept |
| RelationshipExtraction.SentencePairsFacts | src/knowledge/extractor.py:170-173 | The co-occurrences of a sentence are exactly its ordered pairs `i < j` |
| RelationshipExtraction.SyntacticEdges | src/knowledge/extractor.py:182-213 | The token loop folds the syntactic links into the edges; a `KeyError` ends it |
| RelationshipExtraction.MatchConcepts | src/knowledge/extractor.py:195-201 | The matching loop finds the token's concept and the head's concept |
| RelationshipExtraction.SynHitFacts | src/knowledge/extractor.py:195-201 | A token's concept is the last concept matching it either way round, or none |
| RelationshipExtraction.FailureSticky | src/knowledge/extractor.py:208-211 | Once the `KeyError` is raised, later tokens change nothing |
| RelationshipExtraction.RelationshipsFailure | src/knowledge/extractor.py:208-213 | Extraction raises `KeyError` exactly when a syntactic link hits a pair whose edge was made by co-occurrence: that edge has no `types` |
| RelationshipExtraction.EdgeList | src/knowledge/extractor.py:215-223 | One relationship per edge of the edge view |
| RelationshipExtraction.RelationshipEntries | src/knowledge/extractor.py:215-226 | Each relationship joins two different concept texts, from the one earlier among the nodes. Its weight is the number of hits on the pair. Its type is what first made the edge. A syntactic edge lists each relation once |
| RelationshipExtraction.RelationshipsShape | src/knowledge/extractor.py:215-226 | Sorted by weight; one relationship per pair hit and none twice; every pair hit has one |
| Relationships.AccumulateClosedForm | src/knowledge/extractor.py:170-213 | The edge-by-edge updates equal a closed form (first hit creates, later hits count) or fail exactly on a conflict |
| Relationships.FirstsFacts | src/knowledge/extractor.py:176-179 | The first hit on each pair creates its edge, in order of first hit, with the kind that made it |
| Relationships.NewPair | src/knowledge/extractor.py:178-179 | A first hit on a pair appends a fresh edge |
| Relationships.OldPair | src/knowledge/extractor.py:176-177 | Another hit on a known pair updates that edge alone, or raises for a syntactic hit on a co-occurrence edge |
| Undirected.EdgeViewFacts | src/knowledge/extractor.py:216 | `G.edges(data=True)` reports every edge once, a permutation of the edges, from its earlier endpoint, with its data |
| Undirected.EdgeViewOrdered | src/knowledge/extractor.py:216 | The edge view is ordered by the position of the reporting endpoint among the nodes |
| Undirected.EdgeViewSimple | src/knowledge/extractor.py:216 | A graph with one edge per pair reports each pair once |
| Hierarchy.BuildGraph | src/knowledge/extractor.py:233-249 | The ordered successor lists of the containment graph |
| Hierarchy.AddEdges | src/knowledge/extractor.py:240-249 | The double loop gives each concept exactly its containing concepts as successors |
| Hierarchy.SupersFacts | src/knowledge/extractor.py:240-249 | `x` succeeds `u` exactly when `x` is another concept whose lower-cased text contains `u`'s; no duplicates; concept order |
| Hierarchy.RootCandidates | src/knowledge/extractor.py:252 | The nodes of in-degree 0, in node order |
| Hierarchy.ZeroInDegreeMinimal | src/knowledge/extractor.py:252 | Over concepts distinct up to case, the nodes of in-degree 0 are exactly the concepts that contain no other concept, in concept order |
| Hierarchy.InDegreeMinimal | src/knowledge/extractor.py:252 | In-degree 0 exactly when the concept contains no other concept |
| Hierarchy.CandidatesFacts | src/knowledge/extractor.py:252 | Exactly the minimal concepts, each once |
| Hierarchy.SomeMinimal | src/knowledge/extractor.py:254-256 | A non-empty concept list always has a minimal concept, so the fallback is only taken for no concepts |
| Hierarchy.RootsFacts | src/knowledge/extractor.py:251-262 | At most 5 distinct roots, each minimal. Every minimal concept is a root unless five were taken. There is a root exactly when there is a concept |
| Hierarchy.GenerateHierarchy | src/knowledge/extractor.py:230-268 | Builds the roots and each root's subtree |
| Hierarchy.SubtreeList | src/knowledge/extractor.py:264-266 | One subtree per root, in root order |
| Hierarchy.BuildSubtree | src/knowledge/extractor.py:270-285 | The recursion returns the concept's subtree |
| Hierarchy.LongerChild | src/knowledge/extractor.py:270-285 | A child's lower-cased text is strictly longer, so the recursion ends |
| Hierarchy.SubtreeChildren | src/knowledge/extractor.py:270-285 | A concept's children are the concepts containing it, each once, in concept order; it is a leaf exactly when none does |
| Hierarchy.SubtreeBelow | src/knowledge/extractor.py:270-285 | Every concept anywhere below `u` strictly contains `u` |
| Clusters.GroupPartition | src/knowledge/extractor.py:307-313 | The grouping loop builds the id groups of the partition |
| Clusters.GroupedFacts | src/knowledge/extractor.py:307-313 | One non-empty group per id used. A node is in the group of an id exactly when the partition pairs them |
| Clusters.Enumerated | src/knowledge/extractor.py:320-323 | Component `k` becomes cluster `k` |
| Clusters.GenerateClusters | src/knowledge/extractor.py:325-338 | Sorts the groups and names each |
| Clusters.ClustersOrder | src/knowledge/extractor.py:326 | The clusters are the groups, each once, largest first; groups of equal size keep their order |
| Clusters.Named | src/knowledge/extractor.py:329-336 | Each group, in order, keeps its id and members and gets its name |
| Clusters.NameFacts | src/knowledge/extractor.py:329-336 | A cluster with member concepts is named after the member at some position `i`. No member is more important, and no member before `i` is as important. A cluster with none is named `"Cluster <id>"` |
| Util.FirstBestKept | src/knowledge/extractor.py:333 | `max` over the elements passing a test picks the first position of the largest key among them |
| Clusters.MemberConcepts | src/knowledge/extractor.py:331 | The concepts whose text is a member, in concept order |
| Extractor.ExtractKnowledge | src/knowledge/extractor.py:26-63 | The method returns the extracted knowledge of the document |
| Extractor.EmptyContent | src/knowledge/extractor.py:36-44 | Missing or empty content gives empty lists and an empty hierarchy |
| Extractor.KnowledgeFacts | src/knowledge/extractor.py:46-63 | Non-empty content fails with `KeyError` exactly on a syntactic/co-occurrence conflict. Otherwise the knowledge has three properties. (1) The concepts are ranked and unique up to case. (2) There is a hierarchy with a root whenever there is a concept, and its roots are concept texts. (3) There is one cluster per detected group |
| MapperGraph.AddConceptNodes | src/knowledge/mapper.py:47-53 | The node loop builds the concept nodes |
| MapperGraph.ConceptNodesFacts | src/knowledge/mapper.py:47-53 | One node per concept text, in order of first appearance, with the attributes of the last concept with that text |
| MapperGraph.AddRelationshipEdges | src/knowledge/mapper.py:56-63 | The edge loop adds the edges and any missing endpoint nodes |
| MapperGraph.EdgeNodesGrow | src/knowledge/mapper.py:56-63 | Edges keep every node and add only attribute-less ones |
| MapperGraph.EdgeNodesEndpoints | src/knowledge/mapper.py:56-63 | After the edges, every endpoint is a node |
| MapperGraph.EdgeNodesKeys | src/knowledge/mapper.py:56-63 | Edges add nodes only for endpoints |
| MapperGraph.GraphNodesFacts | src/knowledge/mapper.py:47-63 | Every node has attributes exactly when every endpoint is a concept text; then the nodes are the concept nodes |
| MapperGraph.EdgesFacts | src/knowledge/mapper.py:56-63 | One edge per unordered pair joined, carrying the data of the last relationship on it |
| Mapper.GenerateKnowledgeMap | src/knowledge/mapper.py:15-163 | The method returns the knowledge map of the extracted knowledge |
| Mapper.MapShape | src/knowledge/mapper.py:30-160 | No concepts gives the empty map. Otherwise the metadata counts the lists and the hierarchy is passed through |
| Mapper.MapFailure | src/knowledge/mapper.py:56-98 | The map raises `KeyError` exactly when some relationship names a non-concept, since that node has no `importance` |
| Mapper.NormalizePositions | src/knowledge/mapper.py:74-88 | The normalisation loop computes the min-max scaled positions |
| Mapper.ScaleFacts | src/knowledge/mapper.py:75-88 | Min-max scaling maps into [0, 1]. The minimum goes to 0, and the maximum to 1 when the values differ. Order is kept |
| Mapper.MapPositions | src/knowledge/mapper.py:74-115 | Every coordinate is in [0, 1], and some node sits at 0 on each axis |
| Mapper.ImportanceValues | src/knowledge/mapper.py:92 | The importance list, or the `KeyError` exactly when some node lacks one |
| Mapper.NodeSizes | src/knowledge/mapper.py:91-100 | The size loop scales each importance into [5, 20] |
| Mapper.MapSizes | src/knowledge/mapper.py:90-115 | Sizes lie in [5, 20] and follow importance. The least important node gets 5 and the most important 20; if all importances are equal, every node gets 5 |
| Mapper.BuildNodes | src/knowledge/mapper.py:102-115 | The node records, in graph order |
| Mapper.MapNodes | src/knowledge/mapper.py:102-115 | The nodes are the distinct concept texts in first-appearance order. Each node's id and label are its text. Its type, importance and frequency come from the last concept with that text |
| Mapper.BuildLinks | src/knowledge/mapper.py:117-126 | One link per edge of the edge view |
| Mapper.MapLinks | src/knowledge/mapper.py:117-126 | One link per joined pair, and a link for every relationship, with the data of the last relationship on the pair. Each link starts at its earlier node, in node order |
| Mapper.LinksDistinct | src/knowledge/mapper.py:117-126 | No pair has two links |
| Mapper.LinksFromRelationships | src/knowledge/mapper.py:56-126 | Every link joins the endpoints of some relationship |
| Mapper.LinksCoverRelationships | src/knowledge/mapper.py:56-126 | Every relationship has a link between its endpoints |
| Mapper.BuildClusters | src/knowledge/mapper.py:128-145 | The cluster loop keeps the clusters with member nodes |
| Mapper.ClusterDataSources | src/knowledge/mapper.py:129-145 | Every shown cluster comes from an input cluster with a member node |
| Mapper.ClusterDataComplete | src/knowledge/mapper.py:129-145 | Every input cluster with a member node is shown |
| Mapper.CenterBounds | src/knowledge/mapper.py:134-137 | The mean of positions in the unit square lies in the unit square |
| Mapper.MapClusters | src/knowledge/mapper.py:128-145 | Shown clusters come from input clusters and have centres in the unit square; a cluster is shown exactly when a member is a concept text |
| JourneyMap.IndexNodes | src/knowledge/journey.py:40 | The dictionary comprehension builds the node index |
| JourneyMap.IndexedOrder | src/knowledge/journey.py:40 | The keys are the node ids in order of first occurrence, each once |
| JourneyMap.IndexedValues | src/knowledge/journey.py:40 | Every id is a key, and each key maps to the last node with that id |
| JourneyMap.BuildGraph | src/knowledge/journey.py:43-51 | The link loop builds the adjacency lists |
| JourneyMap.NeighboursFacts | src/knowledge/journey.py:43-51 | `y` is listed at `x` with weight `w` exactly when a link of weight `w` joins them |
| JourneyMap.GraphSymmetric | src/knowledge/journey.py:49-51 | The adjacency is symmetric, with equal weights both ways |
| JourneyMap.DescendantOfRoot | src/knowledge/journey.py:468-478 | Over a tree keyed by roots only (the shape the extractor writes), `_is_descendant` returns true exactly for the root and its listed children |
| JourneyPaths.SampleFacts | src/knowledge/journey.py:266 | `random.sample(pool, k)` has `k` elements from the pool, and no duplicates when the pool has none |
| JourneyPaths.SimilarConcepts | src/knowledge/journey.py:255-263 | Exactly the unvisited nodes within 0.2 of the start's importance, each once, in node order (`SimilarOf`) |
| JourneyPaths.SimilarOfFacts | src/knowledge/journey.py:255-263 | `SimilarOf` is duplicate-free, and it holds exactly the nodes off the path whose importance is within 0.2 of the start's |
| JourneyPaths.PadSimilar | src/knowledge/journey.py:253-270 | A path of 5 or more is kept. A shorter one with `n` unvisited similar nodes gets a sample of `min(3, n)` of them, cut where the path reaches 5 (`Padded`). Its length is `min(5, len + min(3, n))` (`PadCount`). No duplicates |
| JourneyPaths.FreshFacts | src/knowledge/journey.py:199-202 | The new names are exactly the names not seen, each once |
| JourneyPaths.GrowStep | src/knowledge/journey.py:199-202 | One turn of the guarded append extends the path by the next name exactly when it is new and the path is below the limit |
| JourneyPaths.GrowFacts | src/knowledge/journey.py:199-202 | A grown path has no duplicate and begins with the old path. It adds only new names and never passes the limit. Every name is on it when all fit |
| JourneyPaths.AppendNew | src/knowledge/journey.py:199-202 | The guarded-append loop gives exactly `Grow`: the path, then the names not on it, in order, each once, while it is below the limit |
| JourneyPaths.DefaultPath | src/knowledge/journey.py:314-345 | The start first, at most 5, distinct. It begins with `DefaultBase`: the start, then the new concepts of the three heaviest neighbours in order. It then holds as many similar nodes as `PadCount` says. Every heaviest neighbour is on it |
| JourneyPaths.StartClusters | src/knowledge/journey.py:134-138 | Exactly the clusters listing the start, in order |
| JourneyPaths.PrimaryChosen | src/knowledge/journey.py:145 | The chosen cluster is the first of largest size among those listing the start |
| JourneyPaths.Connected | src/knowledge/journey.py:150-161 | The connection loop lists the cluster members with their strengths |
| JourneyPaths.StrengthFacts | src/knowledge/journey.py:154-159 | A connection strength is the first link's weight, or 0 |
| JourneyPaths.ConnectedFacts | src/knowledge/journey.py:151-161 | Exactly the other member nodes, each with its strength to the start |
| JourneyPaths.CountTouches | src/knowledge/journey.py:176-181 | The number of path concepts that list the node as a neighbour |
| JourneyPaths.CandidatesOfFacts | src/knowledge/journey.py:172-185 | The candidates are exactly the nodes off the path adjacent to two or more path concepts, each with its count |
| JourneyPaths.PatternCandidates | src/knowledge/journey.py:172-185 | Exactly the unvisited nodes adjacent to at least two path concepts, with that count, in node order (`CandidatesOf`) |
| JourneyPaths.PatternPath | src/knowledge/journey.py:129-204 | At most 6, the start first, distinct. With no cluster it is the default path; otherwise it is shaped by the primary cluster |
| JourneyPaths.ClusterPath | src/knowledge/journey.py:144-204 | Exactly `ClusterBase`, in four steps. (1) The start. (2) The new concepts of the three strongest connections. (3) The two best pattern candidates of that first stage. (4) While it is shorter than 5, unvisited cluster members in cluster order. All three connections and both candidates are on it. Every concept is the start, a primary member, or a node adjacent to two or more path concepts |
| JourneyPaths.BestKept | src/knowledge/journey.py:189-193 | The two best pattern candidates always fit under the limit of 6 |
| JourneyPaths.FindParentFacts | src/knowledge/journey.py:224-229 | The parent is the first root the start descends from. The search raises exactly when a root's search loops before any such root |
| JourneyPaths.ParentOfRootsOnly | src/knowledge/journey.py:224-229 | Over a roots-only tree the search never raises; the parent is the first root listing the start as a child |
| JourneyPaths.HierarchicalPath | src/knowledge/journey.py:206-271 | Fails with `RecursionError` exactly when the parent search loops. Otherwise the path has at most 6 concepts, without duplicates, and contains the start. A root's path begins with `RootBase`: the start, then its first four children. Any other path begins with `ChildBase`: the parent, then the start, then unvisited siblings while shorter than 4, then unvisited children while shorter than 6, each in tree order. Either is then padded by exactly `PadCount` similar nodes |
| JourneyPaths.Heaviest | src/knowledge/journey.py:289-297 | The next concept is an unvisited neighbour of largest weight; there is none exactly when all neighbours are visited |
| JourneyPaths.UnvisitedNodes | src/knowledge/journey.py:301 | Exactly the unvisited nodes |
| JourneyPaths.AssociativePath | src/knowledge/journey.py:273-312 | At most 6, the start first, distinct. Each step goes to the heaviest unvisited neighbour, else to a random unvisited node. A walk that ends early says why it stopped |
| Journey.JourneyTypeCases | src/knowledge/journey.py:100-127 | Never the default type. Each type is chosen exactly when its preference, cognitive style or concept type selects it, with nothing of higher priority deciding |
| Journey.RelatedConcepts | src/knowledge/journey.py:354-396 | The link loop, the sort and the cut give the related concepts |
| Journey.RelatedViaFacts | src/knowledge/journey.py:356-368 | A link contributes exactly when exactly one end is the concept. The entry is the other end, with the link's type (default `"related"`) and weight (default 1) |
| Journey.RelatedAllFacts | src/knowledge/journey.py:355-368 | One entry per contributing link: every entry comes from a link, and every contributing link's entry is there |
| Journey.TopRelatedFacts | src/knowledge/journey.py:370-396 | At most five, strongest first, each from a touching link; none omitted is stronger than one kept |
| Journey.FindClusterName | src/knowledge/journey.py:373-378 | The search loop finds the concept's cluster name |
| Journey.ClusterNameFacts | src/knowledge/journey.py:373-378 | None exactly when no cluster lists the concept; otherwise the name of the first that does |
| Journey.ConceptContentOf | src/knowledge/journey.py:347-423 | Builds the content record of a concept |
| Journey.ContentDefaults | src/knowledge/journey.py:349-384 | A non-node gets title = id, type `"concept"` and importance 0.5; a node gets its own label and importance where present |
| Journey.PatternFocus | src/knowledge/journey.py:425-446 | The counting loops and the thresholds give the focus level |
| Journey.CountsTotal | src/knowledge/journey.py:430-436 | A cluster id is counted exactly when its clusters list a path concept, and its count is that total |
| Journey.FocusFacts | src/knowledge/journey.py:438-446 | High exactly when one id's clusters list at least 70% of the path. Medium exactly when otherwise one to three ids are touched. Low otherwise |
| Journey.ComplexitySums | src/knowledge/journey.py:448-459 | An empty path is medium. Otherwise complexity is high exactly when importances sum to over 0.7 per concept, and low exactly when they sum to at most 0.4 per concept |
| Journey.ImportanceSum | src/knowledge/journey.py:451-452 | A threshold that holds for every concept bounds the sum of the importances |
| Journey.ComplexityOfImportances | src/knowledge/journey.py:448-459 | All importances above 0.7 gives high, all at most 0.4 gives low, and all in (0.4, 0.7] gives medium |
| Journey.JourneyPath | src/knowledge/journey.py:70-78 | Dispatches to the builder of the type. Only the hierarchical one can fail, exactly when its parent search loops |
| Journey.JourneyContent | src/knowledge/journey.py:80-83 | Content for exactly the path's concepts, each its content record |
| Journey.GenerateJourney | src/knowledge/journey.py:15-98 | No map, no start or an unknown start gives the degenerate journey. Otherwise it fails with `RecursionError` exactly when the hierarchical parent search loops. A success carries a type-shaped path, its content, and the metadata of focus, complexity and type |
| Journey.GeneratedPath | src/knowledge/journey.py:15-98 | A generated path holds 1 to 6 concepts without duplicates and contains the start; content is given for exactly those concepts |
| Journey.NodeIdIndexed | src/knowledge/journey.py:40 | The node dictionary's keys are exactly the node ids |
| Journey.JourneyKnown | src/knowledge/journey.py:15-98 | In a map whose links, clusters and hierarchy name only nodes, every concept of a generated journey is a node |

## Left out

- **spaCy:** the NLP pass (`doc.noun_chunks`, `doc.ents`, tokens, sentences, dependencies; extractor.py:65-97 and 151) is a parameter. Its results arrive already cleaned: phrases whitespace-normalised and lower-cased, terms lower-cased and without spaces. `Extractor.Consistent` says so. It also says there is a token whenever there is a phrase or term, since `len(doc)` divides the counts. The five-word limit of line 75 and the entity label filter of line 84 belong to that pass.
- **Community detection:** `community.best_partition` and `nx.connected_components` (extractor.py:304, 318) are parameters: a partition or a list of components. `Detection` covers both branches.
- **`spring_layout`** (mapper.py:68) is a parameter: one position per node.
- **mapper.py:72:** the random fallback after a layout error is not modelled. It would raise `NameError` anyway, since mapper.py does not import `random`.
- **Random draws:** `random.sample` and `random.choice` (journey.py:266, 303, 340) read an arbitrary `draw` function. `JourneyPaths.PadSimilar` states the padded path for the given draw (`Padded`). The journey-level shape predicates state what holds for every draw: how many similar nodes are added, not which.
- **Content placeholders:** the description, pattern insights, examples, visual elements and learning activities (journey.py:385-420) are constant strings. Only the title, type, importance, cluster name and related concepts are modelled.
- **File I/O and other modules:**
  - `save_journey` and `save_knowledge_map` are not modelled; they write JSON files.
  - `app.py`, the other processors and the file reading and RTF handling of text_processor.py (lines 53-85) are not part of this model.
- **Floating point:** importances, weights, positions and sizes are exact reals. Rounding is not modelled. For the pattern focus `len(path) * 0.7` (line 439), the rounding cannot change the outcome for paths of at most 6 concepts.
- **Python's recursion limit:** recursion on a tree that is very deep but acyclic is not modelled. Only a cycle is modelled as `RecursionError`. This covers `_build_subtree` on the containment graph and `_is_descendant`.
- **Text:** `lower()` and `strip()` act on ASCII letters and ASCII white space only.
- **In-place sorts modelled as sorted copies:** `concepts.sort`, `relationships.sort`, `cluster_list.sort`, and the journey's `neighbors.sort`, which reorders the shared adjacency list (journey.py:290, 321). No other read of that list in the same journey depends on its order, so copies lose nothing.
- **Missing fields:** a hierarchy child without `concept` is read as `''` (journey.py:465, 474). A cluster without `concepts` is read as `[]`. Malformed JSON shapes are not modelled: non-list fields, or links without `source`/`target`.
- **Unreachable default branch:** `_determine_journey_type` always returns one of the three types, so the default branch of `generate_journey` (journey.py:77-78) is never taken. `Journey.JourneyTypeCases` proves this. The default builder is modelled as the pattern builder's fallback (journey.py:141-142).
- **Hierarchy preconditions:** `Hierarchy.RootsFacts`, `Hierarchy.BuildGraph` and the other hierarchy members require the concept texts to be distinct up to case. `Extractor` proves this of the concepts it passes them (`Concepts.ConceptsCaseDistinct`).
- **Mapper preconditions:** `Mapper.GenerateKnowledgeMap` and the map lemmas require the layout to have one position per graph node (`Mapper.LayoutFits`).
- **`Concepts.ExtractConcepts`** requires a positive token count whenever there are phrases or terms. Otherwise the division at extractor.py:109 and 130 would raise `ZeroDivisionError`, which this model does not represent.
- **`JourneyPaths.AssociativePath`:** the random jump is stated as "some unvisited node". The contract does not say which one.
- **`Mapper.MapPositions`:** states the range [0, 1] and a node at 0 on each axis. That a node sits at 1 when the coordinates differ is stated on the scaling itself, in `Mapper.ScaleFacts`.
