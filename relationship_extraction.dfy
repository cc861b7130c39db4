/** The walk of `_extract_relationships` (extractor.py) over the NLP output:
    which contributions it makes, in which order, and the relationship list it
    returns. The sentences stand for `doc.sents`; the dependency triples
    stand for the tokens of all sentences, in document order, each with its
    dependency label, its text and its head's text. */
module RelationshipExtraction {
  import opened Util
  import opened Text
  import opened Concepts
  import opened Undirected
  import opened Relationships

  /** A token of the parse: its dependency label, its text and the text of its head. */
  datatype Dependency = Dependency(dep: string, token: string, head: string)

  // ---------------------------------------------------------------------------
  // concept_map = {c['text'].lower(): c['text'] for c in concepts}

  /** Position of the entry with key `k`, or `|m|`. */
  function KeyIndex(m: seq<(string, string)>, k: string): (i: nat)
    ensures i <= |m|
    ensures i < |m| ==> m[i].0 == k
    ensures i == |m| ==> forall j :: 0 <= j < |m| ==> m[j].0 != k
  {
    if m == [] then 0 else if m[0].0 == k then 0 else 1 + KeyIndex(m[1..], k)
  }

  /** `m[k] = v` on an insertion-ordered dictionary. */
  function Put(m: seq<(string, string)>, k: string, v: string): seq<(string, string)> {
    var i := KeyIndex(m, k);
    if i == |m| then m + [(k, v)] else m[i := (k, v)]
  }

  function ConceptMap(cs: seq<Concept>): seq<(string, string)> {
    if cs == [] then [] else Put(ConceptMap(cs[..|cs| - 1]), LowerText(cs[|cs| - 1]), cs[|cs| - 1].text)
  }

  /** `sentence_concepts`: the values whose key occurs in the lower-cased sentence. */
  function Hits(m: seq<(string, string)>, sent: string): seq<string> {
    if m == [] then []
    else Hits(m[..|m| - 1], sent) + (if IsSubstring(m[|m| - 1].0, sent) then [m[|m| - 1].1] else [])
  }

  // ---------------------------------------------------------------------------
  // Co-occurrence: every pair i < j of a sentence's concepts, in loop order.

  /** The pairs `(sc[i], sc[j])` for `i < j < m`. */
  function PairRow(sc: seq<string>, i: nat, m: nat): seq<Contribution>
    requires i < |sc| && m <= |sc|
  {
    if m <= i + 1 then [] else PairRow(sc, i, m - 1) + [Co(sc[i], sc[m - 1])]
  }

  /** The pairs of the first `n` rows. */
  function SentencePairs(sc: seq<string>, n: nat): seq<Contribution>
    requires n <= |sc|
  {
    if n == 0 then [] else SentencePairs(sc, n - 1) + PairRow(sc, n - 1, |sc|)
  }

  function CoContribs(m: seq<(string, string)>, sents: seq<string>): seq<Contribution> {
    if sents == [] then []
    else
      var sc := Hits(m, Lower(sents[|sents| - 1]));
      CoContribs(m, sents[..|sents| - 1]) + SentencePairs(sc, |sc|)
  }

  // ---------------------------------------------------------------------------
  // Syntactic links.

  /** `token_text in concept_lower or concept_lower in token_text` */
  predicate Matches(c: Concept, t: string) {
    IsSubstring(t, LowerText(c)) || IsSubstring(LowerText(c), t)
  }

  /** The text of the last concept matching `t`, or `""` (falsy, like `None`). */
  function SynHit(cs: seq<Concept>, t: string): string {
    if cs == [] then ""
    else if Matches(cs[|cs| - 1], t) then cs[|cs| - 1].text
    else SynHit(cs[..|cs| - 1], t)
  }

  predicate LinkDep(dep: string) {
    dep == "nsubj" || dep == "dobj" || dep == "pobj"
  }

  function RelName(dep: string): string {
    if dep == "nsubj" then "subject_of" else "object_of"
  }

  /** The syntactic contribution of one token, if any. */
  function SynOf(cs: seq<Concept>, d: Dependency): seq<Contribution> {
    if LinkDep(d.dep) then
      var t := SynHit(cs, Lower(d.token));
      var h := SynHit(cs, Lower(d.head));
      if t != "" && h != "" && t != h then [Syn(t, h, RelName(d.dep))] else []
    else []
  }

  function SynContribs(cs: seq<Concept>, ds: seq<Dependency>): seq<Contribution> {
    if ds == [] then [] else SynContribs(cs, ds[..|ds| - 1]) + SynOf(cs, ds[|ds| - 1])
  }

  /** Every update the extraction makes to the graph, in order. */
  function Contributions(cs: seq<Concept>, sents: seq<string>, ds: seq<Dependency>): seq<Contribution> {
    CoContribs(ConceptMap(cs), sents) + SynContribs(cs, ds)
  }

  // ---------------------------------------------------------------------------
  // The result.

  function Nodes(cs: seq<Concept>): seq<string> { Dedup(Texts(cs)) }

  /** One entry of the returned list; `subtypes` defaults to `[]`. */
  function ToRelationship(e: RelEdge): Relationship {
    Relationship(e.u, e.v, e.data.weight, e.data.etype, if e.data.types.Some? then e.data.types.value else [])
  }

  function Weight(r: Relationship): real { r.weight as real }

  function RPair(r: Relationship): set<string> { {r.source, r.target} }

  /** The relationships, sorted by weight (stable, descending), or the
      `KeyError` that ends the extraction. */
  function RelationshipsOf(cs: seq<Concept>, sents: seq<string>, ds: seq<Dependency>): Result<seq<Relationship>> {
    match Accumulate(Contributions(cs, sents, ds))
    case Failure(e) => Failure(e)
    case Success(es) => Success(SortDesc(Map(EdgeView(Nodes(cs), es), ToRelationship), Weight))
  }

  // ---------------------------------------------------------------------------
  // The extraction as the source runs it.

  method ExtractRelationships(concepts: seq<Concept>, sentences: seq<string>, deps: seq<Dependency>)
    returns (r: Result<seq<Relationship>>)
    ensures r == RelationshipsOf(concepts, sentences, deps)
  {
    var nodes := AddNodes(concepts);
    var cmap := BuildConceptMap(concepts);
    var es := CoOccurrenceEdges(cmap, sentences);
    var syn := SyntacticEdges(concepts, deps, es, CoContribs(cmap, sentences));
    if syn.Failure? {
      return Failure(syn.error);
    }
    var rels := EdgeList(EdgeView(nodes, syn.value));
    r := Success(SortDesc(rels, Weight));
  }

  /** `G.add_node(concept['text'])` for every concept. */
  method AddNodes(concepts: seq<Concept>) returns (nodes: seq<string>)
    ensures nodes == Nodes(concepts)
  {
    nodes := [];
    for i := 0 to |concepts|
      invariant nodes == Dedup(Texts(concepts[..i]))
    {
      assert concepts[..i + 1][..i] == concepts[..i];
      DedupSnoc(Texts(concepts[..i]), concepts[i].text);
      if concepts[i].text !in nodes {
        DedupFacts(Texts(concepts[..i]));
        nodes := nodes + [concepts[i].text];
      }
    }
    assert concepts[..|concepts|] == concepts;
  }

  /** The dictionary comprehension, one assignment per concept. */
  method BuildConceptMap(concepts: seq<Concept>) returns (cmap: seq<(string, string)>)
    ensures cmap == ConceptMap(concepts)
  {
    cmap := [];
    for i := 0 to |concepts|
      invariant cmap == ConceptMap(concepts[..i])
    {
      assert concepts[..i + 1][..i] == concepts[..i];
      cmap := Put(cmap, Lower(concepts[i].text), concepts[i].text);
    }
    assert concepts[..|concepts|] == concepts;
  }

  /** The loop over `G.edges(data=True)` building the dictionaries. */
  method EdgeList(view: seq<RelEdge>) returns (rels: seq<Relationship>)
    ensures rels == Map(view, ToRelationship)
  {
    rels := [];
    for i := 0 to |view|
      invariant rels == Map(view[..i], ToRelationship)
    {
      assert view[..i + 1] == view[..i] + [view[i]];
      rels := rels + [ToRelationship(view[i])];
    }
    assert view[..|view|] == view;
  }

  /** The sentence loop of the co-occurrence pass. */
  method CoOccurrenceEdges(cmap: seq<(string, string)>, sentences: seq<string>) returns (es: seq<RelEdge>)
    ensures Accumulate(CoContribs(cmap, sentences)) == Success(es)
  {
    es := [];
    for s := 0 to |sentences|
      invariant Accumulate(CoContribs(cmap, sentences[..s])) == Success(es)
    {
      assert sentences[..s + 1][..s] == sentences[..s];
      var sc := SentenceConcepts(cmap, Lower(sentences[s]));
      es := SentenceEdges(sc, es, CoContribs(cmap, sentences[..s]));
    }
    assert sentences[..|sentences|] == sentences;
  }

  /** The two nested loops over the pairs of one sentence's concepts. */
  method SentenceEdges(sc: seq<string>, es0: seq<RelEdge>, ghost before: seq<Contribution>) returns (es: seq<RelEdge>)
    requires Accumulate(before) == Success(es0)
    ensures Accumulate(before + SentencePairs(sc, |sc|)) == Success(es)
  {
    es := es0;
    SentenceStart(sc, before);
    for i := 0 to |sc|
      invariant Accumulate(before + SentencePairs(sc, i)) == Success(es)
    {
      es := RowEdges(sc, i, es, before + SentencePairs(sc, i));
      SentenceStep(before, sc, i, es);
    }
  }

  /** Before the outer loop, the sentence contributes nothing. */
  lemma SentenceStart(sc: seq<string>, before: seq<Contribution>)
    ensures before + SentencePairs(sc, 0) == before
  {
    assert SentencePairs(sc, 0) == [];
  }

  /** Row `i` appended after the first `i` rows gives the first `i + 1` rows. */
  lemma SentenceStep(before: seq<Contribution>, sc: seq<string>, i: nat, es: seq<RelEdge>)
    requires i < |sc|
    requires Accumulate((before + SentencePairs(sc, i)) + PairRow(sc, i, |sc|)) == Success(es)
    ensures Accumulate(before + SentencePairs(sc, i + 1)) == Success(es)
  {
    AppendAssoc(before, SentencePairs(sc, i), PairRow(sc, i, |sc|));
    assert before + SentencePairs(sc, i + 1) == (before + SentencePairs(sc, i)) + PairRow(sc, i, |sc|);
  }

  /** The inner loop: `sc[i]` against every later concept of the sentence. */
  method RowEdges(sc: seq<string>, i: nat, es0: seq<RelEdge>, ghost before: seq<Contribution>) returns (es: seq<RelEdge>)
    requires i < |sc|
    requires Accumulate(before) == Success(es0)
    ensures Accumulate(before + PairRow(sc, i, |sc|)) == Success(es)
  {
    es := es0;
    RowStart(sc, i, before);
    for j := i + 1 to |sc|
      invariant Accumulate(before + PairRow(sc, i, j)) == Success(es)
    {
      es := PairEdge(sc, i, j, es, before);
    }
  }

  /** One pass of the inner loop body: `_add_or_update_edge` for the pair `(i, j)`. */
  method PairEdge(sc: seq<string>, i: nat, j: nat, es0: seq<RelEdge>, ghost before: seq<Contribution>) returns (es: seq<RelEdge>)
    requires i < j < |sc|
    requires Accumulate(before + PairRow(sc, i, j)) == Success(es0)
    ensures Accumulate(before + PairRow(sc, i, j + 1)) == Success(es)
  {
    RowStep(sc, i, j, es0, before);
    es := Step(es0, Co(sc[i], sc[j])).value;
  }

  /** Before the inner loop, the row contributes nothing. */
  lemma RowStart(sc: seq<string>, i: nat, before: seq<Contribution>)
    requires i < |sc|
    ensures before + PairRow(sc, i, i + 1) == before
  {
    assert PairRow(sc, i, i + 1) == [];
  }

  /** The pair `(i, j)` adds one co-occurrence step to the row so far. */
  lemma RowStep(sc: seq<string>, i: nat, j: nat, es: seq<RelEdge>, before: seq<Contribution>)
    requires i < j < |sc|
    requires Accumulate(before + PairRow(sc, i, j)) == Success(es)
    ensures Step(es, Co(sc[i], sc[j])).Success?
    ensures Accumulate(before + PairRow(sc, i, j + 1)) == Success(Step(es, Co(sc[i], sc[j])).value)
  {
    var c := Co(sc[i], sc[j]);
    AccumulateSnoc(before + PairRow(sc, i, j), c);
    StepCo(es, c);
    AppendAssoc(before, PairRow(sc, i, j), [c]);
    assert PairRow(sc, i, j + 1) == PairRow(sc, i, j) + [c];
  }

  /** The token loop of the syntactic pass; `KeyError` ends it. */
  method SyntacticEdges(concepts: seq<Concept>, deps: seq<Dependency>, es0: seq<RelEdge>, ghost before: seq<Contribution>)
    returns (r: Result<seq<RelEdge>>)
    requires Accumulate(before) == Success(es0)
    ensures r == Accumulate(before + SynContribs(concepts, deps))
  {
    var es := es0;
    assert SynContribs(concepts, deps[..0]) == [];
    assert before + SynContribs(concepts, deps[..0]) == before;
    for k := 0 to |deps|
      invariant Accumulate(before + SynContribs(concepts, deps[..k])) == Success(es)
    {
      var next := DependencyEdges(concepts, deps, k, es, before);
      if next.Failure? {
        SynFailure(before, concepts, deps, k, before + SynContribs(concepts, deps[..k + 1]));
        return next;
      }
      es := next.value;
    }
    assert deps[..|deps|] == deps;
    r := Success(es);
  }

  /** The body of the token loop for `deps[k]`: a subject or object link
      between two different matching concepts goes to `_add_or_update_edge`. */
  method DependencyEdges(concepts: seq<Concept>, deps: seq<Dependency>, k: nat, es0: seq<RelEdge>, ghost before: seq<Contribution>)
    returns (r: Result<seq<RelEdge>>)
    requires k < |deps|
    requires Accumulate(before + SynContribs(concepts, deps[..k])) == Success(es0)
    ensures r == Accumulate(before + SynContribs(concepts, deps[..k + 1]))
  {
    ghost var done := before + SynContribs(concepts, deps[..k]);
    SynSnoc(concepts, deps, k);
    AppendAssoc(before, SynContribs(concepts, deps[..k]), SynOf(concepts, deps[k]));
    var d := deps[k];
    if d.dep == "nsubj" || d.dep == "dobj" || d.dep == "pobj" {
      var tokenConcept, headConcept := MatchConcepts(concepts, Lower(d.token), Lower(d.head));
      if tokenConcept != "" && headConcept != "" && tokenConcept != headConcept {
        var c := Syn(tokenConcept, headConcept, if d.dep == "nsubj" then "subject_of" else "object_of");
        AccumulateSnoc(done, c);
        r := Step(es0, c);
        return;
      }
    }
    assert done + SynOf(concepts, d) == done;
    r := Success(es0);
  }

  /** One more dependency adds its own contribution. */
  lemma SynSnoc(cs: seq<Concept>, ds: seq<Dependency>, k: nat)
    requires k < |ds|
    ensures SynContribs(cs, ds[..k + 1]) == SynContribs(cs, ds[..k]) + SynOf(cs, ds[k])
  {
    assert ds[..k + 1][..k] == ds[..k];
  }

  /** The loop over `concept_map.items()` collecting the concepts of a sentence. */
  method SentenceConcepts(cmap: seq<(string, string)>, sentText: string) returns (sc: seq<string>)
    ensures sc == Hits(cmap, sentText)
  {
    sc := [];
    for i := 0 to |cmap|
      invariant sc == Hits(cmap[..i], sentText)
    {
      assert cmap[..i + 1][..i] == cmap[..i];
      var (conceptLower, conceptOriginal) := cmap[i];
      if IsSubstring(conceptLower, sentText) {
        sc := sc + [conceptOriginal];
      }
    }
    assert cmap[..|cmap|] == cmap;
  }

  /** The loop over the concepts finding the token's and the head's concept. */
  method MatchConcepts(concepts: seq<Concept>, tokenText: string, headText: string)
    returns (tokenConcept: string, headConcept: string)
    ensures tokenConcept == SynHit(concepts, tokenText)
    ensures headConcept == SynHit(concepts, headText)
  {
    tokenConcept, headConcept := "", "";
    for i := 0 to |concepts|
      invariant tokenConcept == SynHit(concepts[..i], tokenText)
      invariant headConcept == SynHit(concepts[..i], headText)
    {
      assert concepts[..i + 1][..i] == concepts[..i];
      var conceptLower := Lower(concepts[i].text);
      if IsSubstring(tokenText, conceptLower) || IsSubstring(conceptLower, tokenText) {
        tokenConcept := concepts[i].text;
      }
      if IsSubstring(headText, conceptLower) || IsSubstring(conceptLower, headText) {
        headConcept := concepts[i].text;
      }
    }
    assert concepts[..|concepts|] == concepts;
  }

  // ---------------------------------------------------------------------------

  lemma AccumulateSnoc(cs: seq<Contribution>, c: Contribution)
    ensures Accumulate(cs + [c]) == match Accumulate(cs) case Failure(e) => Failure(e) case Success(es) => Step(es, c)
  {
    assert (cs + [c])[..|cs|] == cs;
  }

  /** A co-occurrence never raises. */
  lemma StepCo(es: seq<RelEdge>, c: Contribution)
    requires c.Co?
    ensures Step(es, c).Success?
  {
  }

  /** An exception ends the fold: later contributions change nothing. */
  lemma {:induction false} FailureSticky(a: seq<Contribution>, b: seq<Contribution>)
    requires Accumulate(a).Failure?
    ensures Accumulate(a + b) == Accumulate(a)
  {
    if b != [] {
      var init := b[..|b| - 1];
      FailureSticky(a, init);
      assert b == init + [b[|b| - 1]];
      assert a + b == (a + init) + [b[|b| - 1]];
      AccumulateSnoc(a + init, b[|b| - 1]);
    } else {
      assert a + b == a;
    }
  }

  /** A failure at token `k` is the failure of the whole pass. */
  lemma SynFailure(before: seq<Contribution>, cs: seq<Concept>, ds: seq<Dependency>, k: nat, done: seq<Contribution>)
    requires k < |ds| && done == before + SynContribs(cs, ds[..k + 1])
    requires Accumulate(done).Failure?
    ensures Accumulate(before + SynContribs(cs, ds)) == Accumulate(done)
  {
    FailureSticky(done, SynContribs(cs, ds[k + 1..]));
    SynContribsSplit(cs, ds, k + 1);
    AppendAssoc(before, SynContribs(cs, ds[..k + 1]), SynContribs(cs, ds[k + 1..]));
  }

  lemma SynContribsSplit(cs: seq<Concept>, ds: seq<Dependency>, k: nat)
    requires k <= |ds|
    ensures SynContribs(cs, ds) == SynContribs(cs, ds[..k]) + SynContribs(cs, ds[k..])
  {
    SynAppend(cs, ds[..k], ds[k..]);
    SplitAt(ds, k);
  }

  lemma SynSnocOf(cs: seq<Concept>, ds: seq<Dependency>, d: Dependency)
    ensures SynContribs(cs, ds + [d]) == SynContribs(cs, ds) + SynOf(cs, d)
  {
    assert (ds + [d])[..|ds|] == ds;
  }

  /** The contributions of two runs of tokens follow one another. */
  lemma {:induction false} SynAppend(cs: seq<Concept>, a: seq<Dependency>, b: seq<Dependency>)
    ensures SynContribs(cs, a + b) == SynContribs(cs, a) + SynContribs(cs, b)
    decreases |b|
  {
    if b == [] {
      assert a + b == a;
    } else {
      var b0 := b[..|b| - 1];
      var x := b[|b| - 1];
      SynAppend(cs, a, b0);
      InitLast(b);
      SynAppendStep(cs, a, b0, x);
    }
  }

  lemma SynAppendStep(cs: seq<Concept>, a: seq<Dependency>, b0: seq<Dependency>, x: Dependency)
    requires SynContribs(cs, a + b0) == SynContribs(cs, a) + SynContribs(cs, b0)
    ensures SynContribs(cs, a + (b0 + [x])) == SynContribs(cs, a) + SynContribs(cs, b0 + [x])
  {
    assert a + (b0 + [x]) == (a + b0) + [x];
    SynSnocOf(cs, a + b0, x);
    SynSnocOf(cs, b0, x);
    AppendAssoc(SynContribs(cs, a), SynContribs(cs, b0), SynOf(cs, x));
  }

  // ---------------------------------------------------------------------------
  // What the concept map holds.

  function EntryKey(e: (string, string)): string { e.0 }

  /** The text of the last concept with this lower-cased form, or `""`. */
  function LastText(cs: seq<Concept>, k: string): string {
    if cs == [] then ""
    else if LowerText(cs[|cs| - 1]) == k then cs[|cs| - 1].text
    else LastText(cs[..|cs| - 1], k)
  }

  lemma {:induction false} LastTextFacts(cs: seq<Concept>, k: string)
    requires k in Map(cs, LowerText)
    ensures Lower(LastText(cs, k)) == k && LastText(cs, k) in Texts(cs)
  {
    var init := cs[..|cs| - 1];
    var c := cs[|cs| - 1];
    assert cs == init + [c];
    MapAppend(init, [c], LowerText);
    TextsFacts(cs);
    assert Texts(cs)[|cs| - 1] == c.text;
    if LowerText(c) != k {
      LastTextFacts(init, k);
      TextsFacts(init);
      var j :| 0 <= j < |init| && Texts(init)[j] == LastText(init, k);
      assert Texts(cs)[j] == LastText(cs, k);
    }
  }

  /** One entry per lower-cased concept text, in order of first appearance,
      holding the text of the last concept with it. */
  lemma ConceptMapFacts(cs: seq<Concept>)
    ensures Map(ConceptMap(cs), EntryKey) == Dedup(Map(cs, LowerText))
    ensures forall i :: 0 <= i < |ConceptMap(cs)| ==> ConceptMap(cs)[i].1 == LastText(cs, ConceptMap(cs)[i].0)
  {
    ConceptMapKeys(cs);
    ConceptMapLast(cs);
  }

  lemma {:induction false} ConceptMapKeys(cs: seq<Concept>)
    ensures Map(ConceptMap(cs), EntryKey) == Dedup(Map(cs, LowerText))
  {
    if cs != [] {
      var init := cs[..|cs| - 1];
      var c := cs[|cs| - 1];
      var k := LowerText(c);
      assert cs == init + [c];
      ConceptMapKeys(init);
      MapAppend(init, [c], LowerText);
      assert Map(cs, LowerText) == Map(init, LowerText) + [k];
      DedupSnoc(Map(init, LowerText), k);
      DedupFacts(Map(init, LowerText));
      PutKeys(ConceptMap(init), k, c.text);
    } else {
      assert ConceptMap(cs) == [];
    }
  }

  /** Assigning a key keeps the key order and appends a new key at the end. */
  lemma PutKeys(m: seq<(string, string)>, k: string, v: string)
    ensures Map(Put(m, k, v), EntryKey) == if k in Map(m, EntryKey) then Map(m, EntryKey) else Map(m, EntryKey) + [k]
  {
    var i := KeyIndex(m, k);
    if i == |m| {
      MapAppend(m, [(k, v)], EntryKey);
      assert k !in Map(m, EntryKey);
    } else {
      assert Map(m, EntryKey)[i] == k;
      assert Map(Put(m, k, v), EntryKey) == Map(m, EntryKey);
    }
  }

  lemma {:induction false} ConceptMapLast(cs: seq<Concept>)
    ensures forall i :: 0 <= i < |ConceptMap(cs)| ==> ConceptMap(cs)[i].1 == LastText(cs, ConceptMap(cs)[i].0)
  {
    if cs != [] {
      var init := cs[..|cs| - 1];
      var c := cs[|cs| - 1];
      var k := LowerText(c);
      ConceptMapLast(init);
      var m0 := ConceptMap(init);
      var m := ConceptMap(cs);
      var i := KeyIndex(m0, k);
      if i == |m0| {
        assert m == m0 + [(k, c.text)];
      } else {
        assert m == m0[i := (k, c.text)];
        ConceptMapKeys(init);
        DedupFacts(Map(init, LowerText));
        forall j | 0 <= j < |m| && j != i ensures m[j].0 != k {
          assert Map(m0, EntryKey)[j] != Map(m0, EntryKey)[i];
        }
      }
    } else {
      assert ConceptMap(cs) == [];
    }
  }

  lemma {:induction false} HitsFacts(m: seq<(string, string)>, sent: string)
    ensures forall x :: x in Hits(m, sent) ==> exists i :: 0 <= i < |m| && m[i].1 == x && IsSubstring(m[i].0, sent)
    ensures forall i :: 0 <= i < |m| && IsSubstring(m[i].0, sent) ==> m[i].1 in Hits(m, sent)
  {
    if m != [] {
      var init := m[..|m| - 1];
      HitsFacts(init, sent);
      forall x | x in Hits(m, sent) ensures exists i :: 0 <= i < |m| && m[i].1 == x && IsSubstring(m[i].0, sent) {
        if x in Hits(init, sent) {
          var i :| 0 <= i < |init| && init[i].1 == x && IsSubstring(init[i].0, sent);
          assert m[i] == init[i];
        }
      }
      forall i | 0 <= i < |m| && IsSubstring(m[i].0, sent) ensures m[i].1 in Hits(m, sent) {
        if i < |init| {
          assert m[i] == init[i];
        }
      }
    }
  }

  lemma {:induction false} HitsDistinct(m: seq<(string, string)>, sent: string)
    requires forall i, j :: 0 <= i < j < |m| ==> m[i].1 != m[j].1
    ensures Distinct(Hits(m, sent))
  {
    if m != [] {
      var init := m[..|m| - 1];
      HitsDistinct(init, sent);
      HitsFacts(init, sent);
      var h := Hits(init, sent);
      forall x | x in h ensures x != m[|m| - 1].1 {
        var i :| 0 <= i < |init| && init[i].1 == x && IsSubstring(init[i].0, sent);
        assert m[i] == init[i];
      }
      var tail := if IsSubstring(m[|m| - 1].0, sent) then [m[|m| - 1].1] else [];
      assert Hits(m, sent) == h + tail;
      forall i, j | 0 <= i < j < |h + tail| ensures (h + tail)[i] != (h + tail)[j] {
        if j >= |h| {
          assert (h + tail)[i] in h;
        }
      }
    }
  }

  /** `concept_map` never maps two keys to one text. */
  lemma ConceptMapValues(cs: seq<Concept>)
    ensures forall i, j :: 0 <= i < j < |ConceptMap(cs)| ==> ConceptMap(cs)[i].1 != ConceptMap(cs)[j].1
    ensures forall i :: 0 <= i < |ConceptMap(cs)| ==> ConceptMap(cs)[i].1 in Texts(cs)
    ensures forall i :: 0 <= i < |ConceptMap(cs)| ==> Lower(ConceptMap(cs)[i].1) == ConceptMap(cs)[i].0
  {
    var m := ConceptMap(cs);
    ConceptMapFacts(cs);
    DedupFacts(Map(cs, LowerText));
    forall i | 0 <= i < |m| ensures m[i].1 in Texts(cs) && Lower(m[i].1) == m[i].0 {
      assert Map(m, EntryKey)[i] == m[i].0;
      LastTextFacts(cs, m[i].0);
    }
    forall i, j | 0 <= i < j < |m| ensures m[i].1 != m[j].1 {
      assert Map(m, EntryKey)[i] != Map(m, EntryKey)[j];
    }
  }

  /** The concepts of a sentence: distinct concept texts whose lower-cased form
      occurs in the lower-cased sentence; every concept occurring there is
      represented by the last concept with its lower-cased form. */
  lemma SentenceConceptsFacts(cs: seq<Concept>, sent: string)
    ensures Distinct(Hits(ConceptMap(cs), Lower(sent)))
    ensures forall x :: x in Hits(ConceptMap(cs), Lower(sent)) ==>
              x in Texts(cs) && IsSubstring(Lower(x), Lower(sent)) && x == LastText(cs, Lower(x))
    ensures forall c :: c in cs && IsSubstring(LowerText(c), Lower(sent)) ==>
              LastText(cs, LowerText(c)) in Hits(ConceptMap(cs), Lower(sent))
  {
    var m := ConceptMap(cs);
    ConceptMapValues(cs);
    ConceptMapFacts(cs);
    HitsDistinct(m, Lower(sent));
    HitsFacts(m, Lower(sent));
    DedupFacts(Map(cs, LowerText));
    forall c | c in cs && IsSubstring(LowerText(c), Lower(sent))
      ensures LastText(cs, LowerText(c)) in Hits(m, Lower(sent))
    {
      var k :| 0 <= k < |cs| && cs[k] == c;
      assert Map(cs, LowerText)[k] == LowerText(c);
      assert LowerText(c) in Map(m, EntryKey);
      var i :| 0 <= i < |m| && Map(m, EntryKey)[i] == LowerText(c);
    }
  }

  // ---------------------------------------------------------------------------
  // What the contributions are.

  /** Every pair `i < j` of the row, one contribution each, in loop order. */
  lemma {:induction false} PairRowFacts(sc: seq<string>, i: nat, m: nat)
    requires i < |sc| && m <= |sc|
    ensures forall c :: c in PairRow(sc, i, m) <==> exists j :: i < j < m && c == Co(sc[i], sc[j])
  {
    if m > i + 1 {
      PairRowFacts(sc, i, m - 1);
    }
  }

  /** The co-occurrences of a sentence are exactly its ordered concept pairs. */
  lemma {:induction false} SentencePairsFacts(sc: seq<string>, n: nat)
    requires n <= |sc|
    ensures forall c :: c in SentencePairs(sc, n) <==>
              exists i, j :: 0 <= i < n && i < j < |sc| && c == Co(sc[i], sc[j])
  {
    if n > 0 {
      SentencePairsFacts(sc, n - 1);
      PairRowFacts(sc, n - 1, |sc|);
    }
  }

  /** Every contribution joins two different concept texts. */
  predicate Proper(all: seq<Contribution>, texts: seq<string>) {
    forall k :: 0 <= k < |all| ==> all[k].a != all[k].b && all[k].a in texts && all[k].b in texts
  }

  lemma ProperAppend(x: seq<Contribution>, y: seq<Contribution>, texts: seq<string>)
    requires Proper(x, texts) && Proper(y, texts)
    ensures Proper(x + y, texts)
  {
    forall k | 0 <= k < |x + y| ensures (x + y)[k].a != (x + y)[k].b {
      if k >= |x| {
        assert (x + y)[k] == y[k - |x|];
      }
    }
  }

  lemma {:induction false} CoProper(cs: seq<Concept>, sents: seq<string>)
    ensures Proper(CoContribs(ConceptMap(cs), sents), Texts(cs))
  {
    if sents != [] {
      var sent := sents[|sents| - 1];
      var sc := Hits(ConceptMap(cs), Lower(sent));
      CoProper(cs, sents[..|sents| - 1]);
      SentenceConceptsFacts(cs, sent);
      SentencePairsFacts(sc, |sc|);
      var ps := SentencePairs(sc, |sc|);
      forall k | 0 <= k < |ps| ensures ps[k].a != ps[k].b && ps[k].a in Texts(cs) && ps[k].b in Texts(cs) {
        assert ps[k] in ps;
        var i, j :| 0 <= i < |sc| && i < j < |sc| && ps[k] == Co(sc[i], sc[j]);
        assert sc[i] in sc && sc[j] in sc;
      }
      ProperAppend(CoContribs(ConceptMap(cs), sents[..|sents| - 1]), ps, Texts(cs));
    }
  }

  /** The token's concept is the last concept that matches it, or `""` when
      none does. */
  lemma {:induction false} SynHitFacts(cs: seq<Concept>, t: string)
    ensures (forall i :: 0 <= i < |cs| ==> !Matches(cs[i], t)) ==> SynHit(cs, t) == ""
    ensures forall i :: 0 <= i < |cs| && Matches(cs[i], t) && (forall j :: i < j < |cs| ==> !Matches(cs[j], t))
              ==> SynHit(cs, t) == cs[i].text
    ensures SynHit(cs, t) == "" || SynHit(cs, t) in Texts(cs)
  {
    if cs != [] {
      var init := cs[..|cs| - 1];
      SynHitFacts(init, t);
      TextsFacts(cs);
      TextsFacts(init);
      assert Texts(cs)[|cs| - 1] == cs[|cs| - 1].text;
      forall i | 0 <= i < |init| ensures Texts(init)[i] in Texts(cs) {
        assert Texts(cs)[i] == Texts(init)[i];
      }
      forall i | 0 <= i < |cs| && Matches(cs[i], t) && (forall j :: i < j < |cs| ==> !Matches(cs[j], t))
        ensures SynHit(cs, t) == cs[i].text
      {
        if i < |init| {
          assert init[i] == cs[i];
          assert forall j :: i < j < |init| ==> init[j] == cs[j];
        }
      }
    }
  }

  lemma {:induction false} SynProper(cs: seq<Concept>, ds: seq<Dependency>)
    ensures Proper(SynContribs(cs, ds), Texts(cs))
  {
    if ds != [] {
      var d := ds[|ds| - 1];
      SynProper(cs, ds[..|ds| - 1]);
      SynHitFacts(cs, Lower(d.token));
      SynHitFacts(cs, Lower(d.head));
      ProperAppend(SynContribs(cs, ds[..|ds| - 1]), SynOf(cs, d), Texts(cs));
    }
  }

  lemma ContributionsProper(cs: seq<Concept>, sents: seq<string>, ds: seq<Dependency>)
    ensures Proper(Contributions(cs, sents, ds), Texts(cs))
  {
    CoProper(cs, sents);
    SynProper(cs, ds);
    ProperAppend(CoContribs(ConceptMap(cs), sents), SynContribs(cs, ds), Texts(cs));
  }

  // ---------------------------------------------------------------------------
  // What the extraction returns.

  /** It raises `KeyError` exactly when a syntactic link hits a pair whose
      edge was made by co-occurrence. */
  lemma RelationshipsFailure(cs: seq<Concept>, sents: seq<string>, ds: seq<Dependency>)
    ensures RelationshipsOf(cs, sents, ds).Failure? <==> Conflict(Contributions(cs, sents, ds))
    ensures RelationshipsOf(cs, sents, ds).Failure? ==> RelationshipsOf(cs, sents, ds).error == "KeyError"
  {
    AccumulateClosedForm(Contributions(cs, sents, ds));
  }

  lemma Setup(cs: seq<Concept>, sents: seq<string>, ds: seq<Dependency>)
    requires RelationshipsOf(cs, sents, ds).Success?
    ensures var all := Contributions(cs, sents, ds);
      && !Conflict(all)
      && EndpointsIn(Nodes(cs), Expected(all))
      && Proper(all, Texts(cs))
      && RelationshipsOf(cs, sents, ds).value
         == SortDesc(Map(EdgeView(Nodes(cs), Expected(all)), ToRelationship), Weight)
  {
    var all := Contributions(cs, sents, ds);
    AccumulateClosedForm(all);
    ContributionsProper(cs, sents, ds);
    FirstsFacts(all);
    ExpectedAt(all);
    DedupFacts(Texts(cs));
    var es := Expected(all);
    forall i | 0 <= i < |es| ensures es[i].u in Nodes(cs) && es[i].v in Nodes(cs) {
      var f := Firsts(all)[i];
      assert f in all;
      var k :| 0 <= k < |all| && all[k] == f;
    }
  }

  /** The first contribution behind a returned relationship. */
  lemma Origin(cs: seq<Concept>, sents: seq<string>, ds: seq<Dependency>, r: Relationship) returns (f: Contribution)
    requires RelationshipsOf(cs, sents, ds).Success? && r in RelationshipsOf(cs, sents, ds).value
    ensures var all := Contributions(cs, sents, ds);
      && f in all
      && RPair(r) == CPair(f) && RPair(r) in Dedup(CPairs(all))
      && MadeByCo(all, CPair(f)) == f.Co?
      && ((r.source == f.a && r.target == f.b) || (r.source == f.b && r.target == f.a))
      && r.weight == Count(all, CPair(f))
      && r.rtype == KindName(f)
      && r.subtypes == (if f.Co? then [] else Dedup(SynRels(all, CPair(f))))
      && IndexOf(Nodes(cs), r.source) <= IndexOf(Nodes(cs), r.target)
  {
    Setup(cs, sents, ds);
    f := EdgeOrigin(Contributions(cs, sents, ds), Nodes(cs), r);
  }

  lemma EdgeOrigin(all: seq<Contribution>, nodes: seq<string>, r: Relationship) returns (f: Contribution)
    requires EndpointsIn(nodes, Expected(all))
    requires r in SortDesc(Map(EdgeView(nodes, Expected(all)), ToRelationship), Weight)
    ensures && f in all
      && RPair(r) == CPair(f) && RPair(r) in Dedup(CPairs(all))
      && MadeByCo(all, CPair(f)) == f.Co?
      && ((r.source == f.a && r.target == f.b) || (r.source == f.b && r.target == f.a))
      && r.weight == Count(all, CPair(f))
      && r.rtype == KindName(f)
      && r.subtypes == (if f.Co? then [] else Dedup(SynRels(all, CPair(f))))
      && IndexOf(nodes, r.source) <= IndexOf(nodes, r.target)
  {
    var es := Expected(all);
    var i := ViewIndex(nodes, es, r);
    ExpectedAt(all);
    ExpectedPairs(all);
    FirstsFacts(all);
    f := Firsts(all)[i];
    assert Pairs(es)[i] == Pair(es[i]);
  }

  /** A returned relationship is some edge as the view reports it. */
  lemma ViewIndex(nodes: seq<string>, es: seq<RelEdge>, r: Relationship) returns (i: nat)
    requires EndpointsIn(nodes, es)
    requires r in SortDesc(Map(EdgeView(nodes, es), ToRelationship), Weight)
    ensures i < |es| && r == ToRelationship(Canon(nodes, es[i]))
    ensures RPair(r) == Pair(es[i]) && IndexOf(nodes, r.source) <= IndexOf(nodes, r.target)
  {
    var view := EdgeView(nodes, es);
    var rels := Map(view, ToRelationship);
    SortDescSameElements(rels, Weight);
    assert r in rels;
    var k :| 0 <= k < |rels| && rels[k] == r;
    EdgeViewFacts(nodes, es);
    EdgeViewOrdered(nodes, es);
    assert view[k] in view;
    i :| 0 <= i < |es| && view[k] == Canon(nodes, es[i]);
    CanonPair(nodes, es[i]);
  }

  /** Each relationship joins two different concept texts, from the one that
      comes first among the graph's nodes; it stands for a pair some
      contribution hit; its weight is the number of contributions on the pair;
      its type says what made the edge, and an edge made syntactically lists
      each relation once, in order of first appearance. */
  lemma RelationshipEntries(cs: seq<Concept>, sents: seq<string>, ds: seq<Dependency>)
    requires RelationshipsOf(cs, sents, ds).Success?
    ensures var all := Contributions(cs, sents, ds);
      forall r :: r in RelationshipsOf(cs, sents, ds).value ==>
        && r.source != r.target && r.source in Texts(cs) && r.target in Texts(cs)
        && IndexOf(Nodes(cs), r.source) <= IndexOf(Nodes(cs), r.target)
        && RPair(r) in CPairs(all)
        && r.weight == Count(all, RPair(r))
        && r.rtype == (if MadeByCo(all, RPair(r)) then "co-occurrence" else "syntactic")
        && r.subtypes == (if MadeByCo(all, RPair(r)) then [] else Dedup(SynRels(all, RPair(r))))
  {
    var all := Contributions(cs, sents, ds);
    forall r | r in RelationshipsOf(cs, sents, ds).value
      ensures && r.source != r.target && r.source in Texts(cs) && r.target in Texts(cs)
              && IndexOf(Nodes(cs), r.source) <= IndexOf(Nodes(cs), r.target)
              && RPair(r) in CPairs(all)
              && r.weight == Count(all, RPair(r))
              && r.rtype == (if MadeByCo(all, RPair(r)) then "co-occurrence" else "syntactic")
              && r.subtypes == (if MadeByCo(all, RPair(r)) then [] else Dedup(SynRels(all, RPair(r))))
    {
      var f := Origin(cs, sents, ds, r);
      Setup(cs, sents, ds);
      var k :| 0 <= k < |all| && all[k] == f;
      DedupFacts(CPairs(all));
    }
  }

  /** The list is sorted by weight, holds one relationship per pair hit, and
      every pair hit has its relationship. */
  lemma RelationshipsShape(cs: seq<Concept>, sents: seq<string>, ds: seq<Dependency>)
    requires RelationshipsOf(cs, sents, ds).Success?
    ensures var all := Contributions(cs, sents, ds);
      var rs := RelationshipsOf(cs, sents, ds).value;
      && SortedDesc(rs, Weight)
      && |rs| == |Dedup(CPairs(all))|
      && Distinct(Map(rs, RPair))
      && forall p :: p in CPairs(all) ==> exists r :: r in rs && RPair(r) == p
  {
    var all := Contributions(cs, sents, ds);
    Setup(cs, sents, ds);
    ListShape(all, Nodes(cs));
    ListCovers(all, Nodes(cs));
  }

  lemma ListShape(all: seq<Contribution>, nodes: seq<string>)
    requires EndpointsIn(nodes, Expected(all))
    ensures var rs := SortDesc(Map(EdgeView(nodes, Expected(all)), ToRelationship), Weight);
      && SortedDesc(rs, Weight)
      && |rs| == |Dedup(CPairs(all))|
      && Distinct(Map(rs, RPair))
  {
    var rels := Map(EdgeView(nodes, Expected(all)), ToRelationship);
    var rs := SortDesc(rels, Weight);
    ViewShape(all, nodes);
    SortDescPerm(rels, Weight);
    SortDescSorted(rels, Weight);
    MapMultiset(rs, rels, RPair);
    DistinctMultiset(Map(rels, RPair), Map(rs, RPair));
  }

  /** Before sorting: one relationship per co-occurring pair, no pair twice. */
  lemma ViewShape(all: seq<Contribution>, nodes: seq<string>)
    requires EndpointsIn(nodes, Expected(all))
    ensures var rels := Map(EdgeView(nodes, Expected(all)), ToRelationship);
      |rels| == |Dedup(CPairs(all))| && Distinct(Map(rels, RPair))
  {
    var es := Expected(all);
    var view := EdgeView(nodes, es);
    var rels := Map(view, ToRelationship);
    EdgeViewFacts(nodes, es);
    ExpectedPairs(all);
    assert |Pairs(es)| == |es|;
    EdgeViewSimple(nodes, es);
    forall k | 0 <= k < |view| ensures Map(rels, RPair)[k] == Pairs(view)[k] {
    }
    assert Map(rels, RPair) == Pairs(view);
  }

  lemma ListCovers(all: seq<Contribution>, nodes: seq<string>)
    requires EndpointsIn(nodes, Expected(all))
    ensures var rs := SortDesc(Map(EdgeView(nodes, Expected(all)), ToRelationship), Weight);
      forall p :: p in CPairs(all) ==> exists r :: r in rs && RPair(r) == p
  {
    var es := Expected(all);
    var view := EdgeView(nodes, es);
    var rels := Map(view, ToRelationship);
    var rs := SortDesc(rels, Weight);
    SortDescSameElements(rels, Weight);
    EdgeViewFacts(nodes, es);
    ExpectedPairs(all);
    DedupFacts(CPairs(all));
    forall p | p in CPairs(all) ensures exists r :: r in rs && RPair(r) == p {
      assert p in Pairs(es);
      var i :| 0 <= i < |es| && Pairs(es)[i] == p;
      var x := Canon(nodes, es[i]);
      CanonPair(nodes, es[i]);
      assert x in view;
      var k :| 0 <= k < |view| && view[k] == x;
      assert rels[k] in rels;
      assert RPair(rels[k]) == p;
    }
  }
}
