/** Relationship extraction (extractor.py, `_extract_relationships`): an
    undirected graph over the concept texts collects one edge per pair of
    concepts, first from co-occurrence in a sentence, then from subject and
    object dependencies; its edge view, sorted by weight, is the result. The
    sentences and the (dependency, token, head) triples of the NLP pass are
    the input. */
module Relationships {
  import opened Util
  import opened Text
  import opened Concepts
  import opened Undirected

  /** One hit on a pair of concepts: a co-occurrence in a sentence, or a
      syntactic link with its relation (`subject_of` / `object_of`). */
  datatype Contribution = Co(a: string, b: string) | Syn(a: string, b: string, rel: string)

  /** The attribute dictionary of an edge; `types` is absent on edges made by
      co-occurrence. */
  datatype EdgeData = EdgeData(weight: nat, etype: string, types: Option<seq<string>>)

  type RelEdge = Edge<EdgeData>

  datatype Relationship = Relationship(source: string, target: string, weight: nat, rtype: string, subtypes: seq<string>)

  function CPair(c: Contribution): set<string> { {c.a, c.b} }

  function CPairs(cs: seq<Contribution>): seq<set<string>> {
    if cs == [] then [] else CPairs(cs[..|cs| - 1]) + [CPair(cs[|cs| - 1])]
  }

  function KindName(c: Contribution): string {
    if c.Co? then "co-occurrence" else "syntactic"
  }

  // ---------------------------------------------------------------------------
  // The graph updates, one contribution at a time.

  /** `G.has_edge(a, b)`: the position of the edge on this pair, or `|es|`. */
  function FindPair(es: seq<RelEdge>, p: set<string>): (i: nat)
    ensures i <= |es|
    ensures i < |es| ==> Pair(es[i]) == p
    ensures i == |es| ==> forall k :: 0 <= k < |es| ==> Pair(es[k]) != p
  {
    if es == [] then 0 else if Pair(es[0]) == p then 0 else 1 + FindPair(es[1..], p)
  }

  /** One update: a new pair gets an edge of weight 1; a known pair gets its
      edge bumped. */
  function Step(es: seq<RelEdge>, c: Contribution): Result<seq<RelEdge>> {
    var i := FindPair(es, CPair(c));
    if i == |es| then
      Success(es + [Fresh(c)])
    else
      match Bump(es[i], c)
      case Failure(err) => Failure(err)
      case Success(e) => Success(es[i := e])
  }

  /** The edge a first contribution on its pair creates, of weight 1. */
  function Fresh(c: Contribution): RelEdge {
    Edge(c.a, c.b, EdgeData(1, KindName(c), if c.Co? then None else Some([c.rel])))
  }

  /** One more hit on an existing edge: its weight grows by one; a syntactic
      hit also records its relation, and raises `KeyError` on an edge made by
      co-occurrence, which has no `types`. */
  function Bump(e: RelEdge, c: Contribution): Result<RelEdge> {
    var d := e.data;
    if c.Co? then Success(Edge(e.u, e.v, d.(weight := d.weight + 1)))
    else if d.types.None? then Failure("KeyError")
    else
      var ts := if c.rel in d.types.value then d.types.value else d.types.value + [c.rel];
      Success(Edge(e.u, e.v, EdgeData(d.weight + 1, d.etype, Some(ts))))
  }

  /** The edges after all contributions, in creation order; an exception ends
      the extraction. */
  function Accumulate(cs: seq<Contribution>): Result<seq<RelEdge>> {
    if cs == [] then Success([])
    else
      match Accumulate(cs[..|cs| - 1])
      case Failure(e) => Failure(e)
      case Success(es) => Step(es, cs[|cs| - 1])
  }

  // ---------------------------------------------------------------------------
  // The same edges in closed form.

  /** Number of contributions on the pair. */
  function Count(cs: seq<Contribution>, p: set<string>): nat {
    if cs == [] then 0
    else Count(cs[..|cs| - 1], p) + (if CPair(cs[|cs| - 1]) == p then 1 else 0)
  }

  /** The first contribution on each pair, in order: these create the edges. */
  function Firsts(cs: seq<Contribution>): seq<Contribution> {
    if cs == [] then []
    else
      var init := cs[..|cs| - 1];
      var c := cs[|cs| - 1];
      if CPair(c) in CPairs(init) then Firsts(init) else Firsts(init) + [c]
  }

  /** The first contribution on the pair is a co-occurrence. */
  predicate MadeByCo(cs: seq<Contribution>, p: set<string>) {
    if cs == [] then false
    else
      var init := cs[..|cs| - 1];
      var c := cs[|cs| - 1];
      if p in CPairs(init) then MadeByCo(init, p) else CPair(c) == p && c.Co?
  }

  /** The relations of the syntactic contributions on the pair, in order. */
  function SynRels(cs: seq<Contribution>, p: set<string>): seq<string> {
    if cs == [] then []
    else
      var c := cs[|cs| - 1];
      SynRels(cs[..|cs| - 1], p) + (if c.Syn? && CPair(c) == p then [c.rel] else [])
  }

  /** Some syntactic contribution hits a pair whose edge was made by
      co-occurrence. */
  predicate Conflict(cs: seq<Contribution>) {
    if cs == [] then false
    else
      var init := cs[..|cs| - 1];
      var c := cs[|cs| - 1];
      Conflict(init) || (c.Syn? && MadeByCo(init, CPair(c)))
  }

  /** The edge made by the first contribution `f`: oriented and typed as `f`,
      weighed by the number of contributions on its pair, and, when made
      syntactically, listing each relation once in order of first appearance. */
  function EdgeFor(cs: seq<Contribution>, f: Contribution): RelEdge {
    var p := CPair(f);
    Edge(f.a, f.b, EdgeData(Count(cs, p), KindName(f), if f.Co? then None else Some(Dedup(SynRels(cs, p)))))
  }

  /** One edge per pair, in order of the pair's first contribution. */
  function Expected(cs: seq<Contribution>): seq<RelEdge> {
    Map(Firsts(cs), (f: Contribution) => EdgeFor(cs, f))
  }

  // ---------------------------------------------------------------------------

  lemma SnocFacts(cs: seq<Contribution>, c: Contribution, q: set<string>)
    ensures (cs + [c])[..|cs|] == cs
    ensures CPairs(cs + [c]) == CPairs(cs) + [CPair(c)]
    ensures Count(cs + [c], q) == Count(cs, q) + (if CPair(c) == q then 1 else 0)
    ensures SynRels(cs + [c], q) == SynRels(cs, q) + (if c.Syn? && CPair(c) == q then [c.rel] else [])
    ensures Firsts(cs + [c]) == if CPair(c) in CPairs(cs) then Firsts(cs) else Firsts(cs) + [c]
    ensures MadeByCo(cs + [c], q) == if q in CPairs(cs) then MadeByCo(cs, q) else CPair(c) == q && c.Co?
  {
    assert (cs + [c])[..|cs|] == cs;
  }

  /** The first contributions name each hit pair once, in order of first hit. */
  lemma {:induction false} FirstsFacts(cs: seq<Contribution>)
    ensures Map(Firsts(cs), CPair) == Dedup(CPairs(cs))
    ensures forall i :: 0 <= i < |Firsts(cs)| ==> MadeByCo(cs, CPair(Firsts(cs)[i])) == Firsts(cs)[i].Co?
    ensures forall i :: 0 <= i < |Firsts(cs)| ==> Firsts(cs)[i] in cs
  {
    if cs != [] {
      var init := cs[..|cs| - 1];
      var c := cs[|cs| - 1];
      assert cs == init + [c];
      FirstsFacts(init);
      var fs := Firsts(init);
      forall i | 0 <= i < |fs| ensures CPair(fs[i]) in CPairs(init) {
        DedupFacts(CPairs(init));
        assert Map(fs, CPair)[i] == CPair(fs[i]);
      }
      forall q ensures MadeByCo(cs, q) == if q in CPairs(init) then MadeByCo(init, q) else CPair(c) == q && c.Co? {
        SnocFacts(init, c, q);
      }
      SnocFacts(init, c, CPair(c));
      DedupSnoc(CPairs(init), CPair(c));
      MapAppend(fs, [c], CPair);
    }
  }

  lemma ExpectedPairs(cs: seq<Contribution>)
    ensures Pairs(Expected(cs)) == Dedup(CPairs(cs))
    ensures Distinct(Pairs(Expected(cs)))
  {
    FirstsFacts(cs);
    DedupFacts(CPairs(cs));
    var fs := Firsts(cs);
    forall i | 0 <= i < |fs| ensures Pairs(Expected(cs))[i] == Map(fs, CPair)[i] {
    }
  }

  /** The fold is the closed form, or fails exactly on a conflict. */
  lemma {:induction false} AccumulateClosedForm(cs: seq<Contribution>)
    ensures Accumulate(cs) == if Conflict(cs) then Failure("KeyError") else Success(Expected(cs))
  {
    if cs != [] {
      var init := cs[..|cs| - 1];
      var c := cs[|cs| - 1];
      assert cs == init + [c];
      AccumulateClosedForm(init);
      if !Conflict(init) {
        if CPair(c) in CPairs(init) {
          OldPair(init, c);
        } else {
          NewPair(init, c);
        }
      }
    }
  }

  /** A first contribution on its pair appends a fresh edge. */
  lemma NewPair(cs: seq<Contribution>, c: Contribution)
    requires CPair(c) !in CPairs(cs)
    ensures Step(Expected(cs), c) == Success(Expected(cs + [c]))
  {
    NewPairStep(cs, c);
    NewPairExpected(cs, c);
  }

  lemma NewPairStep(cs: seq<Contribution>, c: Contribution)
    requires CPair(c) !in CPairs(cs)
    ensures Step(Expected(cs), c) == Success(Expected(cs) + [Fresh(c)])
  {
    var es := Expected(cs);
    ExpectedPairs(cs);
    DedupFacts(CPairs(cs));
    assert forall k :: 0 <= k < |es| ==> Pairs(es)[k] != CPair(c);
    assert FindPair(es, CPair(c)) == |es|;
  }

  lemma NewPairExpected(cs: seq<Contribution>, c: Contribution)
    requires CPair(c) !in CPairs(cs)
    ensures Expected(cs + [c]) == Expected(cs) + [Fresh(c)]
  {
    var all := cs + [c];
    var es := Expected(cs);
    var fs := Firsts(cs);
    SnocFacts(cs, c, CPair(c));
    assert Firsts(all) == fs + [c];
    OthersUnchanged(cs, c);
    FreshEdge(cs, c);
    ExpectedAt(cs);
    ExpectedAt(all);
    forall k | 0 <= k < |es| + 1 ensures Expected(all)[k] == (es + [Fresh(c)])[k] {
      if k < |es| {
        assert Firsts(all)[k] == fs[k];
      }
    }
    assert Expected(all) == es + [Fresh(c)];
  }

  /** A contribution on a new pair leaves the edges of the known pairs alone. */
  lemma OthersUnchanged(cs: seq<Contribution>, c: Contribution)
    requires CPair(c) !in CPairs(cs)
    ensures forall k :: 0 <= k < |Firsts(cs)| ==> EdgeFor(cs + [c], Firsts(cs)[k]) == EdgeFor(cs, Firsts(cs)[k])
  {
    var es := Expected(cs);
    var fs := Firsts(cs);
    ExpectedPairs(cs);
    DedupFacts(CPairs(cs));
    forall k | 0 <= k < |fs| ensures EdgeFor(cs + [c], fs[k]) == EdgeFor(cs, fs[k]) {
      assert Pairs(es)[k] == CPair(fs[k]);
      EdgeForSnoc(cs, c, fs[k]);
    }
  }

  /** The edge of a pair first hit by the last contribution is fresh. */
  lemma FreshEdge(cs: seq<Contribution>, c: Contribution)
    requires CPair(c) !in CPairs(cs)
    ensures EdgeFor(cs + [c], c) == Fresh(c)
  {
    FreshTally(cs, c);
    if c.Syn? {
      DedupSingle(c.rel);
    }
  }

  lemma FreshTally(cs: seq<Contribution>, c: Contribution)
    requires CPair(c) !in CPairs(cs)
    ensures Count(cs + [c], CPair(c)) == 1
    ensures SynRels(cs + [c], CPair(c)) == if c.Syn? then [c.rel] else []
  {
    var p := CPair(c);
    SnocTally(cs, c, p);
    CountAbsent(cs, p);
    SynRelsAbsent(cs, p);
    if c.Syn? {
      assert [] + [c.rel] == [c.rel];
    }
  }

  lemma DedupSingle(x: string)
    ensures Dedup([x]) == [x]
  {
    assert [x][..0] == [];
  }

  lemma ExpectedAt(cs: seq<Contribution>)
    ensures |Expected(cs)| == |Firsts(cs)|
    ensures forall k :: 0 <= k < |Firsts(cs)| ==> Expected(cs)[k] == EdgeFor(cs, Firsts(cs)[k])
  {
  }

  /** Another hit on a known pair updates that edge alone. */
  lemma OldPair(cs: seq<Contribution>, c: Contribution)
    requires CPair(c) in CPairs(cs)
    ensures Step(Expected(cs), c)
            == if c.Syn? && MadeByCo(cs, CPair(c)) then Failure("KeyError") else Success(Expected(cs + [c]))
  {
    var i := KnownIndex(cs, c);
    var f := OldPairOthers(cs, c, i);
    UpdatedEdge(cs, c, f);
  }

  lemma KnownIndex(cs: seq<Contribution>, c: Contribution) returns (i: nat)
    requires CPair(c) in CPairs(cs)
    ensures i == FindPair(Expected(cs), CPair(c)) && i < |Expected(cs)|
    ensures Pair(Expected(cs)[i]) == CPair(c)
  {
    var es := Expected(cs);
    ExpectedPairs(cs);
    DedupFacts(CPairs(cs));
    assert CPair(c) in Pairs(es);
    i := FindPair(es, CPair(c));
    assert Pairs(es)[i] == CPair(c);
  }

  /** The edge at `i` is the one the known pair has; the others stay. */
  lemma OldPairOthers(cs: seq<Contribution>, c: Contribution, i: nat) returns (f: Contribution)
    requires i < |Expected(cs)| && Pair(Expected(cs)[i]) == CPair(c)
    ensures i < |Firsts(cs)| && f == Firsts(cs)[i] && CPair(f) == CPair(c)
    ensures MadeByCo(cs, CPair(c)) == f.Co?
    ensures Expected(cs)[i] == EdgeFor(cs, f)
    ensures Expected(cs + [c]) == Expected(cs)[i := EdgeFor(cs + [c], f)]
  {
    var all := cs + [c];
    var p := CPair(c);
    var es := Expected(cs);
    var fs := Firsts(cs);
    ExpectedPairs(cs);
    FirstsFacts(cs);
    ExpectedAt(cs);
    f := fs[i];
    assert Pairs(es)[i] == p;
    assert CPair(f) == p;
    assert p in CPairs(cs) by {
      DedupFacts(CPairs(cs));
      assert p in Dedup(CPairs(cs));
    }
    SnocFacts(cs, c, p);
    assert Firsts(all) == fs;
    forall k | 0 <= k < |fs| && k != i ensures EdgeFor(all, fs[k]) == EdgeFor(cs, fs[k]) {
      assert Pairs(es)[k] != Pairs(es)[i];
      EdgeForSnoc(cs, c, fs[k]);
    }
    ExpectedAt(all);
    forall k | 0 <= k < |es| ensures Expected(all)[k] == es[i := EdgeFor(all, f)][k] {
    }
  }

  /** The update of the edge made by `f` on another contribution to its pair. */
  lemma UpdatedEdge(cs: seq<Contribution>, c: Contribution, f: Contribution)
    requires CPair(f) == CPair(c)
    ensures Bump(EdgeFor(cs, f), c) == if c.Syn? && f.Co? then Failure("KeyError") else Success(EdgeFor(cs + [c], f))
  {
    if c.Co? {
      UpdatedByCo(cs, c, f);
    } else if f.Syn? {
      UpdatedBySyn(cs, c, f);
    }
  }

  lemma UpdatedByCo(cs: seq<Contribution>, c: Contribution, f: Contribution)
    requires CPair(f) == CPair(c) && c.Co?
    ensures Bump(EdgeFor(cs, f), c) == Success(EdgeFor(cs + [c], f))
  {
    var p := CPair(f);
    var rs := SynRels(cs, p);
    SnocTally(cs, c, p);
    assert SynRels(cs + [c], p) == rs + [];
    assert rs + [] == rs;
  }

  lemma UpdatedBySyn(cs: seq<Contribution>, c: Contribution, f: Contribution)
    requires CPair(f) == CPair(c) && c.Syn? && f.Syn?
    ensures Bump(EdgeFor(cs, f), c) == Success(EdgeFor(cs + [c], f))
  {
    var p := CPair(f);
    var rs := SynRels(cs, p);
    SnocTally(cs, c, p);
    DedupSnoc(rs, c.rel);
  }

  /** The count and the syntactic relations of a pair after one more
      contribution. */
  lemma SnocTally(cs: seq<Contribution>, c: Contribution, q: set<string>)
    ensures Count(cs + [c], q) == Count(cs, q) + (if CPair(c) == q then 1 else 0)
    ensures SynRels(cs + [c], q) == SynRels(cs, q) + (if c.Syn? && CPair(c) == q then [c.rel] else [])
  {
    assert (cs + [c])[..|cs|] == cs;
  }

  /** A contribution on another pair leaves an edge as it was. */
  lemma EdgeForSnoc(cs: seq<Contribution>, c: Contribution, f: Contribution)
    requires CPair(f) != CPair(c)
    ensures EdgeFor(cs + [c], f) == EdgeFor(cs, f)
  {
    var p := CPair(f);
    SnocTally(cs, c, p);
    assert Count(cs + [c], p) == Count(cs, p);
    assert SynRels(cs + [c], p) == SynRels(cs, p);
  }

  /** A pair never hit has no count and no relations. */
  lemma {:induction false} CountAbsent(cs: seq<Contribution>, p: set<string>)
    requires p !in CPairs(cs)
    ensures Count(cs, p) == 0
  {
    if cs != [] {
      var init := cs[..|cs| - 1];
      assert cs == init + [cs[|cs| - 1]];
      SnocFacts(init, cs[|cs| - 1], p);
      CountAbsent(init, p);
    }
  }

  lemma {:induction false} SynRelsAbsent(cs: seq<Contribution>, p: set<string>)
    requires p !in CPairs(cs)
    ensures SynRels(cs, p) == []
  {
    if cs != [] {
      var init := cs[..|cs| - 1];
      assert cs == init + [cs[|cs| - 1]];
      SnocFacts(init, cs[|cs| - 1], p);
      SynRelsAbsent(init, p);
    }
  }
}
