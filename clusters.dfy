/** Concept clusters (extractor.py, `_generate_clusters`). The community
    detection itself (Louvain, or connected components when that module is
    missing) runs on the relationship graph and is an input here: either a
    partition, one cluster id per node, or the list of components. What the
    model covers is what happens afterwards: grouping the partition by id,
    sorting the clusters by size and naming each after its most important
    concept. */
module Clusters {
  import opened Util
  import opened Text
  import opened Concepts

  /** `{'id': i, 'concepts': [...]}` before naming. */
  datatype Group = Group(id: nat, members: seq<string>)

  /** `{'id': i, 'concepts': [...], 'name': ...}` */
  datatype Cluster = Cluster(id: nat, members: seq<string>, name: string)

  function Size(g: Group): real { |g.members| as real }

  function Ids(gs: seq<Group>): seq<nat> {
    if gs == [] then [] else Ids(gs[..|gs| - 1]) + [gs[|gs| - 1].id]
  }

  // ---------------------------------------------------------------------------
  // Grouping a partition.

  /** The position of the group with this id, or `|gs|` when there is none. */
  function GroupIndex(gs: seq<Group>, id: nat): (k: nat)
    ensures k <= |gs|
    ensures k < |gs| ==> gs[k].id == id
    ensures forall j :: 0 <= j < k ==> gs[j].id != id
  {
    if gs == [] then 0
    else if gs[0].id == id then 0
    else 1 + GroupIndex(gs[1..], id)
  }

  /** `clusters.setdefault(cluster_id, []).append(node)` */
  function AddTo(gs: seq<Group>, node: string, id: nat): seq<Group> {
    var k := GroupIndex(gs, id);
    if k == |gs| then gs + [Group(id, [node])]
    else gs[k := Group(id, gs[k].members + [node])]
  }

  /** The groups of a partition, in order of first appearance of their id. */
  function Grouped(p: seq<(string, nat)>): seq<Group> {
    if p == [] then [] else AddTo(Grouped(p[..|p| - 1]), p[|p| - 1].0, p[|p| - 1].1)
  }

  method GroupPartition(partition: seq<(string, nat)>) returns (groups: seq<Group>)
    ensures groups == Grouped(partition)
  {
    groups := [];
    for k := 0 to |partition|
      invariant groups == Grouped(partition[..k])
    {
      assert partition[..k + 1][..k] == partition[..k];
      var (node, id) := partition[k];
      var i := GroupIndex(groups, id);
      if i == |groups| {
        groups := groups + [Group(id, [node])];
      } else {
        groups := groups[i := Group(id, groups[i].members + [node])];
      }
    }
    assert partition[..|partition|] == partition;
  }

  /** Some group with id `id` has `x` as a member. */
  predicate InGroup(gs: seq<Group>, x: string, id: nat) {
    exists k :: 0 <= k < |gs| && gs[k].id == id && x in gs[k].members
  }

  predicate WellGrouped(gs: seq<Group>) {
    Distinct(Ids(gs)) && forall k :: 0 <= k < |gs| ==> gs[k].members != []
  }

  /** Each id forms one group with at least one member, a node is in the
      group of an id exactly when the partition pairs them, and the ids are
      those the partition uses. */
  lemma {:induction false} GroupedFacts(p: seq<(string, nat)>)
    ensures WellGrouped(Grouped(p))
    ensures forall x: string, id: nat :: (x, id) in p <==> InGroup(Grouped(p), x, id)
    ensures forall id :: id in Ids(Grouped(p)) <==> exists x :: (x, id) in p
  {
    if p != [] {
      var init := p[..|p| - 1];
      var (node, id) := p[|p| - 1];
      GroupedFacts(init);
      assert p == init + [(node, id)];
      AddToFacts(Grouped(init), node, id);
      var r := Grouped(p);
      forall i | i in Ids(r) ensures exists x :: (x, i) in p {
        if i == id {
          assert (node, id) in p;
        } else {
          var x :| (x, i) in init;
          assert (x, i) in p;
        }
      }
    }
  }

  lemma AddToFacts(gs: seq<Group>, node: string, id: nat)
    requires WellGrouped(gs)
    ensures WellGrouped(AddTo(gs, node, id))
    ensures forall x: string, i: nat :: InGroup(AddTo(gs, node, id), x, i) <==> InGroup(gs, x, i) || (x, i) == (node, id)
    ensures forall i :: i in Ids(AddTo(gs, node, id)) <==> i in Ids(gs) || i == id
  {
    var k := GroupIndex(gs, id);
    var r := AddTo(gs, node, id);
    IdsFacts(gs);
    if k == |gs| {
      assert Ids(r) == Ids(gs) + [id];
      assert id !in Ids(gs);
      DistinctSnoc(Ids(gs), id);
      assert r[|gs|].members == [node];
    } else {
      IdsUpdate(gs, k, Group(id, gs[k].members + [node]));
      assert r[k].members == gs[k].members + [node];
    }
    IdsFacts(r);
    forall x, i | InGroup(r, x, i) ensures InGroup(gs, x, i) || (x, i) == (node, id) {
      var j :| 0 <= j < |r| && r[j].id == i && x in r[j].members;
      if j < |gs| && !(j == k && x == node) {
        assert x in gs[j].members;
      }
    }
    forall x, i | InGroup(gs, x, i) ensures InGroup(r, x, i) {
      var j :| 0 <= j < |gs| && gs[j].id == i && x in gs[j].members;
      assert x in r[j].members;
    }
  }

  lemma {:induction false} IdsFacts(gs: seq<Group>)
    ensures |Ids(gs)| == |gs|
    ensures forall k :: 0 <= k < |gs| ==> Ids(gs)[k] == gs[k].id
  {
    if gs != [] {
      IdsFacts(gs[..|gs| - 1]);
    }
  }

  lemma IdsUpdate(gs: seq<Group>, k: nat, g: Group)
    requires k < |gs| && g.id == gs[k].id
    ensures Ids(gs[k := g]) == Ids(gs)
  {
    IdsFacts(gs);
    IdsFacts(gs[k := g]);
  }

  /** `[{'id': i, 'concepts': list(c)} for i, c in enumerate(components)]` */
  function Enumerated(components: seq<seq<string>>): (r: seq<Group>)
    ensures |r| == |components|
    ensures forall k :: 0 <= k < |r| ==> r[k] == Group(k, components[k])
  {
    seq(|components|, k requires 0 <= k < |components| => Group(k, components[k]))
  }

  // ---------------------------------------------------------------------------
  // Sorting and naming.

  /** The concepts that belong to the group, in concept order. */
  function MemberConcepts(cs: seq<Concept>, members: seq<string>): (r: seq<Concept>)
    ensures forall c :: c in r <==> c in cs && c.text in members
    ensures r == [] <==> forall c :: c in cs ==> c.text !in members
  {
    if cs == [] then []
    else
      var last := cs[|cs| - 1];
      MemberConcepts(cs[..|cs| - 1], members) + (if last.text in members then [last] else [])
  }

  /** The text of the first most important member concept, or
      `"Cluster <id>"` when no concept belongs to the group. */
  function NameOf(cs: seq<Concept>, g: Group): string {
    var m := MemberConcepts(cs, g.members);
    if m != [] then m[ArgMax(m, Importance)].text else "Cluster " + NatToString(g.id)
  }

  /** Each group, in order, with its name. */
  function Named(cs: seq<Concept>, gs: seq<Group>): (r: seq<Cluster>)
    ensures |r| == |gs|
    ensures forall k :: 0 <= k < |gs| ==> r[k] == Cluster(gs[k].id, gs[k].members, NameOf(cs, gs[k]))
  {
    if gs == [] then []
    else
      var g := gs[|gs| - 1];
      Named(cs, gs[..|gs| - 1]) + [Cluster(g.id, g.members, NameOf(cs, g))]
  }

  function ClustersOf(cs: seq<Concept>, groups: seq<Group>): seq<Cluster> {
    Named(cs, SortDesc(groups, Size))
  }

  method GenerateClusters(concepts: seq<Concept>, groups: seq<Group>) returns (clusters: seq<Cluster>)
    ensures clusters == ClustersOf(concepts, groups)
  {
    var sorted := SortDesc(groups, Size);
    clusters := [];
    for k := 0 to |sorted|
      invariant clusters == Named(concepts, sorted[..k])
    {
      assert sorted[..k + 1][..k] == sorted[..k];
      var g := sorted[k];
      var members := MemberConcepts(concepts, g.members);
      var name: string;
      if members != [] {
        name := members[ArgMax(members, Importance)].text;
      } else {
        name := "Cluster " + NatToString(g.id);
      }
      clusters := clusters + [Cluster(g.id, g.members, name)];
    }
    assert sorted[..|sorted|] == sorted;
  }

  function Unnamed(c: Cluster): Group { Group(c.id, c.members) }

  lemma {:induction false} UnnamedNamed(cs: seq<Concept>, gs: seq<Group>)
    ensures Map(Named(cs, gs), Unnamed) == gs
  {
    var r := Map(Named(cs, gs), Unnamed);
    forall k | 0 <= k < |gs| ensures r[k] == gs[k] {
    }
  }

  /** The clusters are the groups, each once, largest first, groups of equal
      size keeping their order (`list.sort` is stable). */
  lemma ClustersOrder(cs: seq<Concept>, groups: seq<Group>)
    ensures multiset(Map(ClustersOf(cs, groups), Unnamed)) == multiset(groups)
    ensures SortedDesc(Map(ClustersOf(cs, groups), Unnamed), Size)
    ensures forall n :: KeyFilter(Map(ClustersOf(cs, groups), Unnamed), Size, n) == KeyFilter(groups, Size, n)
  {
    SortDescFacts(groups, Size);
    UnnamedNamed(cs, SortDesc(groups, Size));
  }

  /** A cluster with a member concept is named after one of them, one of the
      highest importance and the first such in concept order; a cluster with
      none is named after its id. */
  lemma NameFacts(cs: seq<Concept>, g: Group)
    ensures (exists c :: c in cs && c.text in g.members) ==>
              exists c :: c in cs && c.text in g.members && NameOf(cs, g) == c.text &&
                (forall d :: d in cs && d.text in g.members ==> d.importance <= c.importance)
    ensures (exists c :: c in cs && c.text in g.members) ==>
              exists i :: 0 <= i < |cs| && cs[i].text in g.members && NameOf(cs, g) == cs[i].text &&
                (forall j :: 0 <= j < |cs| && cs[j].text in g.members ==> cs[j].importance <= cs[i].importance) &&
                (forall j :: 0 <= j < i && cs[j].text in g.members ==> cs[j].importance < cs[i].importance)
    ensures (forall c :: c in cs ==> c.text !in g.members) ==> NameOf(cs, g) == "Cluster " + NatToString(g.id)
  {
    if exists c :: c in cs && c.text in g.members {
      var c0 :| c0 in cs && c0.text in g.members;
      assert c0 in MemberConcepts(cs, g.members);
      var i := FirstBest(cs, g.members);
      assert cs[i] in cs;
      forall d | d in cs && d.text in g.members ensures d.importance <= cs[i].importance {
        var j :| 0 <= j < |cs| && cs[j] == d;
      }
    }
  }

  /** Membership in the group, as a test. */
  function MemberTest(members: seq<string>): Concept -> bool {
    (c: Concept) => c.text in members
  }

  lemma {:induction false} MembersKept(cs: seq<Concept>, members: seq<string>)
    ensures MemberConcepts(cs, members) == Keep(cs, MemberTest(members))
  {
    if cs != [] {
      MembersKept(cs[..|cs| - 1], members);
    }
  }

  /** The concept `max` picks among the members is at a position `i` of
      `cs` with no more important member anywhere and no equally important
      one before it. */
  lemma FirstBest(cs: seq<Concept>, members: seq<string>) returns (i: nat)
    requires MemberConcepts(cs, members) != []
    ensures var m := MemberConcepts(cs, members);
      && i < |cs| && cs[i] == m[ArgMax(m, Importance)] && cs[i].text in members
      && (forall j :: 0 <= j < |cs| && cs[j].text in members ==> cs[j].importance <= cs[i].importance)
      && (forall j :: 0 <= j < i && cs[j].text in members ==> cs[j].importance < cs[i].importance)
  {
    MembersKept(cs, members);
    i := FirstBestKept(cs, MemberTest(members), Importance);
    assert forall j :: 0 <= j < |cs| ==> (MemberTest(members)(cs[j]) <==> cs[j].text in members);
  }
}
