/** The merge-and-rank half of concept extraction (extractor.py,
    `_extract_concepts`, after the NLP pass): frequent noun phrases, then named
    entities, then frequent key terms, then the 100 most important. The NLP
    output (cleaned noun phrases, entities with their labels, key terms and the
    document's token count) is the input. */
module Concepts {
  import opened Util
  import opened Text

  datatype Concept = Concept(text: string, ctype: string, frequency: nat, importance: real)

  datatype Entity = Entity(text: string, etype: string)

  function Importance(c: Concept): real { c.importance }

  function LowerText(c: Concept): string { Lower(c.text) }

  /** `[c['text'] for c in concepts]` */
  function Texts(cs: seq<Concept>): (r: seq<string>)
    ensures |r| == |cs|
  {
    if cs == [] then [] else Texts(cs[..|cs| - 1]) + [cs[|cs| - 1].text]
  }

  lemma {:induction false} TextsFacts(cs: seq<Concept>)
    ensures |Texts(cs)| == |cs|
    ensures forall i :: 0 <= i < |cs| ==> Texts(cs)[i] == cs[i].text
  {
    if cs != [] {
      TextsFacts(cs[..|cs| - 1]);
    }
  }

  /** Concept texts are pairwise different once lower-cased. */
  predicate CaseDistinct(cs: seq<Concept>) {
    Distinct(Map(cs, LowerText))
  }

  // ---------------------------------------------------------------------------
  // collections.Counter

  /** `Counter(xs).items()`: every key once, in order of first occurrence, with
      its number of occurrences. */
  function Tally(xs: seq<string>): seq<(string, nat)> {
    Map(Dedup(xs), (k: string) => (k, multiset(xs)[k]))
  }

  function CountKey(p: (string, nat)): real { p.1 as real }

  function Key(p: (string, nat)): string { p.0 }

  /** `Counter(xs).most_common(n)`: the stable sort of the items by count,
      largest first, cut to `n`. */
  function MostCommon(xs: seq<string>, n: nat): seq<(string, nat)> {
    Take(SortDesc(Tally(xs), CountKey), n)
  }

  /** `Counter(xs).items()` holds each key once, with its count. */
  lemma TallyFacts(xs: seq<string>)
    ensures Map(Tally(xs), Key) == Dedup(xs)
    ensures forall p :: p in Tally(xs) <==> p.0 in xs && p.1 == multiset(xs)[p.0]
  {
    var items := Tally(xs);
    DedupFacts(xs);
    forall p ensures p in items <==> p.0 in xs && p.1 == multiset(xs)[p.0] {
      if p.0 in xs && p.1 == multiset(xs)[p.0] {
        var k :| 0 <= k < |Dedup(xs)| && Dedup(xs)[k] == p.0;
        assert items[k] == p;
      }
    }
  }

  /** `most_common(n)` lists `min(n, #keys)` different keys with their true
      counts, most frequent first, and no key it leaves out is more frequent
      than one it lists. */
  lemma MostCommonFacts(xs: seq<string>, n: nat)
    ensures |MostCommon(xs, n)| == Min(n, |Dedup(xs)|)
    ensures forall i :: 0 <= i < |MostCommon(xs, n)| ==>
              MostCommon(xs, n)[i].0 in xs && MostCommon(xs, n)[i].1 == multiset(xs)[MostCommon(xs, n)[i].0]
    ensures Distinct(Map(MostCommon(xs, n), Key))
    ensures SortedDesc(MostCommon(xs, n), CountKey)
    ensures forall x, i :: x in xs && x !in Map(MostCommon(xs, n), Key) && 0 <= i < |MostCommon(xs, n)|
              ==> multiset(xs)[x] <= MostCommon(xs, n)[i].1
  {
    MostCommonCounts(xs, n);
    MostCommonKeys(xs, n);
    MostCommonTop(xs, n);
  }

  lemma MostCommonCounts(xs: seq<string>, n: nat)
    ensures |MostCommon(xs, n)| == Min(n, |Dedup(xs)|)
    ensures forall i :: 0 <= i < |MostCommon(xs, n)| ==>
              MostCommon(xs, n)[i].0 in xs && MostCommon(xs, n)[i].1 == multiset(xs)[MostCommon(xs, n)[i].0]
    ensures SortedDesc(MostCommon(xs, n), CountKey)
  {
    var items := Tally(xs);
    var r := MostCommon(xs, n);
    TallyFacts(xs);
    DedupFacts(xs);
    TopFacts(items, CountKey, n);
    forall i | 0 <= i < |r| ensures r[i].0 in xs && r[i].1 == multiset(xs)[r[i].0] {
      assert r[i] in multiset(r);
      assert r[i] in multiset(items);
    }
  }

  lemma MostCommonKeys(xs: seq<string>, n: nat)
    ensures Distinct(Map(MostCommon(xs, n), Key))
  {
    var items := Tally(xs);
    var t := SortDesc(items, CountKey);
    TallyFacts(xs);
    DedupFacts(xs);
    SortDescFacts(items, CountKey);
    MapMultiset(items, t, Key);
    DistinctMultiset(Map(items, Key), Map(t, Key));
    MapTake(t, n, Key);
  }

  lemma MostCommonTop(xs: seq<string>, n: nat)
    ensures forall x, i :: x in xs && x !in Map(MostCommon(xs, n), Key) && 0 <= i < |MostCommon(xs, n)|
              ==> multiset(xs)[x] <= MostCommon(xs, n)[i].1
  {
    var items := Tally(xs);
    var r := MostCommon(xs, n);
    TallyFacts(xs);
    TopFacts(items, CountKey, n);
    forall x, i | x in xs && x !in Map(r, Key) && 0 <= i < |r| ensures multiset(xs)[x] <= r[i].1 {
      var p := (x, multiset(xs)[x]);
      assert p in items;
      KeyBelow(items, CountKey, n, p, i);
    }
  }

  // ---------------------------------------------------------------------------
  // The merge, stated as three folds.

  /** `count / len(doc)`; the merge is only asked for a ratio when the document
      has tokens. */
  function Ratio(count: nat, tokenCount: nat): real {
    if tokenCount == 0 then 0.0 else count as real / tokenCount as real
  }

  function PhraseConcept(p: (string, nat), tokenCount: nat): Concept {
    Concept(p.0, "noun_phrase", p.1, Ratio(p.1, tokenCount))
  }

  /** The listed noun phrases seen at least twice, in the listed order. */
  function PhraseConcepts(top: seq<(string, nat)>, tokenCount: nat): seq<Concept> {
    if top == [] then []
    else
      var last := top[|top| - 1];
      PhraseConcepts(top[..|top| - 1], tokenCount)
        + (if last.1 >= 2 then [PhraseConcept(last, tokenCount)] else [])
  }

  /** Some concept has this text up to case (`any(c['text'].lower() == ...)`). */
  predicate CaseKnown(cs: seq<Concept>, text: string) {
    exists i :: 0 <= i < |cs| && Lower(cs[i].text) == Lower(text)
  }

  function EntityConcept(e: Entity): Concept {
    Concept(e.text, e.etype, 1, 0.8)
  }

  /** Each entity in turn, unless a concept already has its text up to case. */
  function WithEntities(cs: seq<Concept>, es: seq<Entity>): seq<Concept> {
    if es == [] then cs
    else
      var prev := WithEntities(cs, es[..|es| - 1]);
      var e := es[|es| - 1];
      if CaseKnown(prev, e.text) then prev else prev + [EntityConcept(e)]
  }

  /** The term is a whole word of some lower-cased concept text
      (`term in c['text'].lower().split()`). */
  predicate WordKnown(cs: seq<Concept>, term: string) {
    exists i :: 0 <= i < |cs| && term in Words(Lower(cs[i].text))
  }

  function TermConcept(p: (string, nat), tokenCount: nat): Concept {
    Concept(p.0, "key_term", p.1, Ratio(p.1, tokenCount))
  }

  /** Each listed term seen at least three times, unless it is already a word
      of a concept. */
  function WithTerms(cs: seq<Concept>, top: seq<(string, nat)>, tokenCount: nat): seq<Concept> {
    if top == [] then cs
    else
      var prev := WithTerms(cs, top[..|top| - 1], tokenCount);
      var p := top[|top| - 1];
      if p.1 >= 3 && !WordKnown(prev, p.0) then prev + [TermConcept(p, tokenCount)] else prev
  }

  function Merged(phrases: seq<string>, entities: seq<Entity>, terms: seq<string>, tokenCount: nat): seq<Concept> {
    WithTerms(WithEntities(PhraseConcepts(MostCommon(phrases, 50), tokenCount), entities),
              MostCommon(terms, 30), tokenCount)
  }

  /** The merged concepts, most important first (stable), cut to 100. */
  function Ranked(phrases: seq<string>, entities: seq<Entity>, terms: seq<string>, tokenCount: nat): seq<Concept> {
    Take(SortDesc(Merged(phrases, entities, terms, tokenCount), Importance), 100)
  }

  // ---------------------------------------------------------------------------
  // The merge as the source runs it.

  method ExtractConcepts(phrases: seq<string>, entities: seq<Entity>, terms: seq<string>, tokenCount: nat)
    returns (concepts: seq<Concept>)
    requires tokenCount > 0 || (phrases == [] && terms == [])
    ensures concepts == Ranked(phrases, entities, terms, tokenCount)
  {
    var topPhrases := MostCommon(phrases, 50);
    concepts := [];
    for i := 0 to |topPhrases|
      invariant concepts == PhraseConcepts(topPhrases[..i], tokenCount)
    {
      assert topPhrases[..i + 1][..i] == topPhrases[..i];
      var (phrase, count) := topPhrases[i];
      if count >= 2 {
        concepts := concepts + [Concept(phrase, "noun_phrase", count, count as real / tokenCount as real)];
      }
    }
    assert topPhrases[..|topPhrases|] == topPhrases;
    ghost var base := concepts;
    for i := 0 to |entities|
      invariant concepts == WithEntities(base, entities[..i])
    {
      assert entities[..i + 1][..i] == entities[..i];
      var entity := entities[i];
      if !CaseKnown(concepts, entity.text) {
        concepts := concepts + [Concept(entity.text, entity.etype, 1, 0.8)];
      }
    }
    assert entities[..|entities|] == entities;
    var topTerms := MostCommon(terms, 30);
    base := concepts;
    for i := 0 to |topTerms|
      invariant concepts == WithTerms(base, topTerms[..i], tokenCount)
    {
      assert topTerms[..i + 1][..i] == topTerms[..i];
      var (term, count) := topTerms[i];
      if count >= 3 && !WordKnown(concepts, term) {
        concepts := concepts + [Concept(term, "key_term", count, count as real / tokenCount as real)];
      }
    }
    assert topTerms[..|topTerms|] == topTerms;
    concepts := Take(SortDesc(concepts, Importance), 100);
  }

  // ---------------------------------------------------------------------------
  // What each stage admits.

  /** A noun phrase becomes a concept exactly when it is listed with a count of
      at least two; its frequency is that count and its importance the count
      over the token count. */
  lemma {:induction false} PhraseConceptsFacts(top: seq<(string, nat)>, tokenCount: nat)
    ensures forall c :: c in PhraseConcepts(top, tokenCount) <==>
              exists i :: 0 <= i < |top| && top[i].1 >= 2 && c == PhraseConcept(top[i], tokenCount)
  {
    if top != [] {
      var init := top[..|top| - 1];
      PhraseConceptsFacts(init, tokenCount);
      forall c ensures c in PhraseConcepts(top, tokenCount) <==>
               exists i :: 0 <= i < |top| && top[i].1 >= 2 && c == PhraseConcept(top[i], tokenCount)
      {
        if exists i :: 0 <= i < |top| && top[i].1 >= 2 && c == PhraseConcept(top[i], tokenCount) {
          var i :| 0 <= i < |top| && top[i].1 >= 2 && c == PhraseConcept(top[i], tokenCount);
          if i < |init| {
            assert init[i] == top[i];
          }
        }
        if c in PhraseConcepts(init, tokenCount) {
          var i :| 0 <= i < |init| && init[i].1 >= 2 && c == PhraseConcept(init[i], tokenCount);
          assert top[i] == init[i];
        }
      }
    }
  }

  /** Phrase concepts are case distinct when the phrases are lower-cased: the
      listed keys are all different. */
  lemma {:induction false} PhraseConceptsDistinct(top: seq<(string, nat)>, tokenCount: nat)
    requires Distinct(Map(top, Key))
    requires forall i :: 0 <= i < |top| ==> IsLower(top[i].0)
    ensures CaseDistinct(PhraseConcepts(top, tokenCount))
    ensures forall c :: c in PhraseConcepts(top, tokenCount) ==> exists i :: 0 <= i < |top| && c.text == top[i].0
  {
    if top != [] {
      var init := top[..|top| - 1];
      var last := top[|top| - 1];
      assert Map(init, Key) == Map(top, Key)[..|top| - 1];
      PhraseConceptsDistinct(init, tokenCount);
      var prev := PhraseConcepts(init, tokenCount);
      forall c | c in PhraseConcepts(top, tokenCount) ensures exists i :: 0 <= i < |top| && c.text == top[i].0 {
        if c in prev {
          var i :| 0 <= i < |init| && c.text == init[i].0;
          assert c.text == top[i].0;
        } else {
          assert c.text == top[|top| - 1].0;
        }
      }
      if last.1 >= 2 {
        var c := PhraseConcept(last, tokenCount);
        forall j | 0 <= j < |prev| ensures Lower(prev[j].text) != Lower(c.text) {
          assert prev[j] in prev;
          var i :| 0 <= i < |init| && prev[j].text == init[i].0;
          assert Map(top, Key)[i] == top[i].0 && Map(top, Key)[|top| - 1] == last.0;
          assert top[i] == init[i];
          assert IsLower(top[i].0);
        }
        AppendCaseDistinct(prev, c);
      }
    }
  }

  /** Appending a concept whose text matches no earlier one up to case. */
  lemma AppendCaseDistinct(cs: seq<Concept>, c: Concept)
    requires CaseDistinct(cs)
    requires forall j :: 0 <= j < |cs| ==> Lower(cs[j].text) != Lower(c.text)
    ensures CaseDistinct(cs + [c])
  {
    MapAppend(cs, [c], LowerText);
    var m := Map(cs + [c], LowerText);
    forall i, j | 0 <= i < j < |m| ensures m[i] != m[j] {
      if j == |cs| {
        assert m[i] == Lower(cs[i].text);
      } else {
        assert m[i] == Map(cs, LowerText)[i] && m[j] == Map(cs, LowerText)[j];
      }
    }
  }

  /** Entities only ever add to the end; every added concept is an entity with
      frequency 1 and importance 0.8; afterwards every entity's text is known up
      to case; and case distinctness is kept. */
  lemma WithEntitiesFacts(cs: seq<Concept>, es: seq<Entity>)
    ensures |cs| <= |WithEntities(cs, es)| && WithEntities(cs, es)[..|cs|] == cs
    ensures forall k :: |cs| <= k < |WithEntities(cs, es)| ==>
              exists e :: e in es && WithEntities(cs, es)[k] == EntityConcept(e)
    ensures forall e :: e in es ==> CaseKnown(WithEntities(cs, es), e.text)
    ensures CaseDistinct(cs) ==> CaseDistinct(WithEntities(cs, es))
  {
    WithEntitiesAdded(cs, es);
    WithEntitiesKnown(cs, es);
    WithEntitiesDistinct(cs, es);
  }

  lemma {:induction false} WithEntitiesAdded(cs: seq<Concept>, es: seq<Entity>)
    ensures |cs| <= |WithEntities(cs, es)| && WithEntities(cs, es)[..|cs|] == cs
    ensures forall k :: |cs| <= k < |WithEntities(cs, es)| ==>
              exists e :: e in es && WithEntities(cs, es)[k] == EntityConcept(e)
  {
    if es != [] {
      var init := es[..|es| - 1];
      var e := es[|es| - 1];
      WithEntitiesAdded(cs, init);
      var prev := WithEntities(cs, init);
      var r := WithEntities(cs, es);
      if !CaseKnown(prev, e.text) {
        assert r == prev + [EntityConcept(e)];
        AppendSlices(prev, [EntityConcept(e)], |cs|);
        forall k | |cs| <= k < |r| ensures exists e' :: e' in es && r[k] == EntityConcept(e') {
          if k < |prev| {
            var e' :| e' in init && prev[k] == EntityConcept(e');
            assert r[k] == prev[k];
            assert e' in es;
          } else {
            assert r[k] == EntityConcept(e);
          }
        }
      } else {
        forall k | |cs| <= k < |r| ensures exists e' :: e' in es && r[k] == EntityConcept(e') {
          var e' :| e' in init && prev[k] == EntityConcept(e');
          assert e' in es;
        }
      }
    }
  }

  lemma {:induction false} WithEntitiesKnown(cs: seq<Concept>, es: seq<Entity>)
    ensures forall e :: e in es ==> CaseKnown(WithEntities(cs, es), e.text)
  {
    if es != [] {
      var init := es[..|es| - 1];
      var e := es[|es| - 1];
      WithEntitiesKnown(cs, init);
      var prev := WithEntities(cs, init);
      var r := WithEntities(cs, es);
      if !CaseKnown(prev, e.text) {
        assert r == prev + [EntityConcept(e)];
        assert CaseKnown(r, e.text) by {
          assert r[|prev|] == EntityConcept(e);
        }
        forall e' | e' in init ensures CaseKnown(r, e'.text) {
          var i :| 0 <= i < |prev| && Lower(prev[i].text) == Lower(e'.text);
          assert r[i] == prev[i];
        }
      } else {
        forall e' | e' in es ensures CaseKnown(r, e'.text) {
          if e' != e {
            assert e' in init;
          }
        }
      }
    }
  }

  lemma {:induction false} WithEntitiesDistinct(cs: seq<Concept>, es: seq<Entity>)
    ensures CaseDistinct(cs) ==> CaseDistinct(WithEntities(cs, es))
  {
    if es != [] {
      var init := es[..|es| - 1];
      var e := es[|es| - 1];
      WithEntitiesDistinct(cs, init);
      var prev := WithEntities(cs, init);
      if CaseDistinct(cs) && !CaseKnown(prev, e.text) {
        AppendCaseDistinct(prev, EntityConcept(e));
      }
    }
  }

  /** Key terms only ever add to the end; every added concept is a listed term
      with a count of at least three; afterwards every such term is a word of
      some concept or was added itself. */
  lemma WithTermsFacts(cs: seq<Concept>, top: seq<(string, nat)>, tokenCount: nat)
    ensures |cs| <= |WithTerms(cs, top, tokenCount)| && WithTerms(cs, top, tokenCount)[..|cs|] == cs
    ensures forall k :: |cs| <= k < |WithTerms(cs, top, tokenCount)| ==>
              exists p :: p in top && p.1 >= 3 && WithTerms(cs, top, tokenCount)[k] == TermConcept(p, tokenCount)
    ensures forall p :: p in top && p.1 >= 3 ==>
              WordKnown(WithTerms(cs, top, tokenCount), p.0) || TermConcept(p, tokenCount) in WithTerms(cs, top, tokenCount)
    ensures forall k :: |cs| <= k < |WithTerms(cs, top, tokenCount)| ==>
              !WordKnown(WithTerms(cs, top, tokenCount)[..k], WithTerms(cs, top, tokenCount)[k].text)
  {
    WithTermsAdded(cs, top, tokenCount);
    WithTermsKnown(cs, top, tokenCount);
    WithTermsFresh(cs, top, tokenCount);
  }

  /** An added term was not a word of any concept before it. */
  lemma {:induction false} WithTermsFresh(cs: seq<Concept>, top: seq<(string, nat)>, tokenCount: nat)
    ensures forall k :: |cs| <= k < |WithTerms(cs, top, tokenCount)| ==>
              !WordKnown(WithTerms(cs, top, tokenCount)[..k], WithTerms(cs, top, tokenCount)[k].text)
  {
    if top != [] {
      var init := top[..|top| - 1];
      var p := top[|top| - 1];
      WithTermsFresh(cs, init, tokenCount);
      var prev := WithTerms(cs, init, tokenCount);
      var r := WithTerms(cs, top, tokenCount);
      var added := p.1 >= 3 && !WordKnown(prev, p.0);
      assert r == if added then prev + [TermConcept(p, tokenCount)] else prev;
      forall k | |cs| <= k < |r| ensures !WordKnown(r[..k], r[k].text) {
        if k < |prev| {
          assert r[..k] == prev[..k] && r[k] == prev[k];
        } else {
          assert r[..k] == prev && r[k].text == p.0;
        }
      }
    }
  }

  lemma {:induction false} WithTermsAdded(cs: seq<Concept>, top: seq<(string, nat)>, tokenCount: nat)
    ensures |cs| <= |WithTerms(cs, top, tokenCount)| && WithTerms(cs, top, tokenCount)[..|cs|] == cs
    ensures forall k :: |cs| <= k < |WithTerms(cs, top, tokenCount)| ==>
              exists p :: p in top && p.1 >= 3 && WithTerms(cs, top, tokenCount)[k] == TermConcept(p, tokenCount)
  {
    if top != [] {
      var init := top[..|top| - 1];
      var p := top[|top| - 1];
      WithTermsAdded(cs, init, tokenCount);
      var prev := WithTerms(cs, init, tokenCount);
      var r := WithTerms(cs, top, tokenCount);
      var added := p.1 >= 3 && !WordKnown(prev, p.0);
      assert r == if added then prev + [TermConcept(p, tokenCount)] else prev;
      assert r[..|prev|] == prev;
      forall k | |cs| <= k < |r|
        ensures exists q :: q in top && q.1 >= 3 && r[k] == TermConcept(q, tokenCount)
      {
        if k < |prev| {
          assert prev[k] == WithTerms(cs, init, tokenCount)[k];
          var q :| q in init && q.1 >= 3 && prev[k] == TermConcept(q, tokenCount);
          assert r[k] == prev[k];
          assert q in top;
        } else {
          assert r[k] == TermConcept(p, tokenCount);
        }
      }
      SliceCut(r, |cs|, |prev|);
    }
  }

  lemma {:induction false} WithTermsKnown(cs: seq<Concept>, top: seq<(string, nat)>, tokenCount: nat)
    ensures forall p :: p in top && p.1 >= 3 ==>
              WordKnown(WithTerms(cs, top, tokenCount), p.0) || TermConcept(p, tokenCount) in WithTerms(cs, top, tokenCount)
  {
    if top != [] {
      var init := top[..|top| - 1];
      var p := top[|top| - 1];
      WithTermsKnown(cs, init, tokenCount);
      var prev := WithTerms(cs, init, tokenCount);
      var r := WithTerms(cs, top, tokenCount);
      var added := p.1 >= 3 && !WordKnown(prev, p.0);
      assert r == if added then prev + [TermConcept(p, tokenCount)] else prev;
      forall q | q in top && q.1 >= 3
        ensures WordKnown(r, q.0) || TermConcept(q, tokenCount) in r
      {
        if q in init {
          if WordKnown(prev, q.0) {
            var i :| 0 <= i < |prev| && q.0 in Words(Lower(prev[i].text));
            assert r[i] == prev[i];
          } else {
            assert TermConcept(q, tokenCount) in prev;
          }
        } else {
          assert q == p;
          if !added {
            assert WordKnown(prev, q.0);
            var i :| 0 <= i < |prev| && q.0 in Words(Lower(prev[i].text));
            assert r[i] == prev[i];
          } else {
            assert r[|prev|] == TermConcept(q, tokenCount);
          }
        }
      }
    }
  }

  /** What the NLP pass guarantees of its output: noun phrases are lower-cased,
      key terms are lower-cased non-empty tokens without white space. */
  predicate WellFormedInput(phrases: seq<string>, terms: seq<string>) {
    (forall i :: 0 <= i < |phrases| ==> IsLower(phrases[i]))
    && (forall i :: 0 <= i < |terms| ==> terms[i] != [] && NoSpace(terms[i]) && IsLower(terms[i]))
  }

  /** A lower-cased space-free term equal to a concept text up to case is a word
      of that concept, so the term step never adds a case duplicate. */
  lemma {:induction false} WithTermsDistinct(cs: seq<Concept>, top: seq<(string, nat)>, tokenCount: nat)
    requires CaseDistinct(cs)
    requires forall i :: 0 <= i < |top| ==> top[i].0 != [] && NoSpace(top[i].0) && IsLower(top[i].0)
    ensures CaseDistinct(WithTerms(cs, top, tokenCount))
  {
    if top != [] {
      var init := top[..|top| - 1];
      var p := top[|top| - 1];
      WithTermsDistinct(cs, init, tokenCount);
      var prev := WithTerms(cs, init, tokenCount);
      if p.1 >= 3 && !WordKnown(prev, p.0) {
        var c := TermConcept(p, tokenCount);
        forall j | 0 <= j < |prev| ensures Lower(prev[j].text) != Lower(c.text) {
          if Lower(prev[j].text) == Lower(c.text) {
            assert Lower(c.text) == p.0;
            WordsOfWord(p.0);
          }
        }
        AppendCaseDistinct(prev, c);
      }
    }
  }

  /** Concept texts are unique up to case, before and after ranking. */
  lemma ConceptsCaseDistinct(phrases: seq<string>, entities: seq<Entity>, terms: seq<string>, tokenCount: nat)
    requires WellFormedInput(phrases, terms)
    ensures CaseDistinct(Merged(phrases, entities, terms, tokenCount))
    ensures CaseDistinct(Ranked(phrases, entities, terms, tokenCount))
  {
    MergedCaseDistinct(phrases, entities, terms, tokenCount);
    RankedCaseDistinct(Merged(phrases, entities, terms, tokenCount));
  }

  lemma MergedCaseDistinct(phrases: seq<string>, entities: seq<Entity>, terms: seq<string>, tokenCount: nat)
    requires WellFormedInput(phrases, terms)
    ensures CaseDistinct(Merged(phrases, entities, terms, tokenCount))
  {
    var tp := MostCommon(phrases, 50);
    var tt := MostCommon(terms, 30);
    MostCommonFacts(phrases, 50);
    MostCommonFacts(terms, 30);
    forall i | 0 <= i < |tp| ensures IsLower(tp[i].0) {
      var k :| 0 <= k < |phrases| && phrases[k] == tp[i].0;
    }
    forall i | 0 <= i < |tt| ensures tt[i].0 != [] && NoSpace(tt[i].0) && IsLower(tt[i].0) {
      var k :| 0 <= k < |terms| && terms[k] == tt[i].0;
    }
    PhraseConceptsDistinct(tp, tokenCount);
    var withE := WithEntities(PhraseConcepts(tp, tokenCount), entities);
    WithEntitiesDistinct(PhraseConcepts(tp, tokenCount), entities);
    WithTermsDistinct(withE, tt, tokenCount);
  }

  /** Sorting and cutting keep case distinctness. */
  lemma RankedCaseDistinct(m: seq<Concept>)
    requires CaseDistinct(m)
    ensures CaseDistinct(Take(SortDesc(m, Importance), 100))
  {
    var s := SortDesc(m, Importance);
    SortDescPerm(m, Importance);
    MapMultiset(m, s, LowerText);
    DistinctMultiset(Map(m, LowerText), Map(s, LowerText));
    MapTake(s, 100, LowerText);
  }

  /** The final list is sorted by importance, holds at most 100 merged
      concepts, and none left out is more important than one kept. */
  lemma RankedFacts(phrases: seq<string>, entities: seq<Entity>, terms: seq<string>, tokenCount: nat)
    ensures |Ranked(phrases, entities, terms, tokenCount)| <= 100
    ensures SortedDesc(Ranked(phrases, entities, terms, tokenCount), Importance)
    ensures multiset(Ranked(phrases, entities, terms, tokenCount)) <= multiset(Merged(phrases, entities, terms, tokenCount))
    ensures forall c, i :: c in Merged(phrases, entities, terms, tokenCount)
              && c !in Ranked(phrases, entities, terms, tokenCount)
              && 0 <= i < |Ranked(phrases, entities, terms, tokenCount)|
              ==> c.importance <= Ranked(phrases, entities, terms, tokenCount)[i].importance
  {
    RankedOf(Merged(phrases, entities, terms, tokenCount));
  }

  /** `RankedFacts` for any list of merged concepts. */
  lemma RankedOf(m: seq<Concept>)
    ensures |Take(SortDesc(m, Importance), 100)| <= 100
    ensures SortedDesc(Take(SortDesc(m, Importance), 100), Importance)
    ensures multiset(Take(SortDesc(m, Importance), 100)) <= multiset(m)
    ensures forall c, i :: c in m && c !in Take(SortDesc(m, Importance), 100) && 0 <= i < |Take(SortDesc(m, Importance), 100)|
              ==> c.importance <= Take(SortDesc(m, Importance), 100)[i].importance
  {
    var r := Take(SortDesc(m, Importance), 100);
    TopFacts(m, Importance, 100);
    forall c, i | c in m && c !in r && 0 <= i < |r| ensures c.importance <= r[i].importance {
      KeyBelow(m, Importance, 100, c, i);
    }
  }
}
