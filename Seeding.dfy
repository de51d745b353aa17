/**
 * Seeding the visible graph for a new search target: the root, then one
 * level-1 node and one edge per entry of the root's relation list, in
 * order and without deduplication.
 */
module Seeding {
  import opened Wrappers
  import opened RelationGraph

  /** The root followed by one child per entry of `rels`, as the `forEach` pushes them. */
  function SeedNodes(data: Data, name: string, rels: seq<Relation>): seq<Node>
    decreases |rels|
  {
    if rels == [] then [RootNode(name)]
    else SeedNodes(data, name, rels[..|rels| - 1]) + [Child(data, name, 0, rels[|rels| - 1].name)]
  }

  /** One edge from `name` per entry of `rels`. */
  function SeedEdges(name: string, rels: seq<Relation>): seq<Edge>
    decreases |rels|
  {
    if rels == [] then []
    else SeedEdges(name, rels[..|rels| - 1]) + [Edge(name, rels[|rels| - 1].name, rels[|rels| - 1].rel1)]
  }

  /** The graph shown for `name`: empty when the dataset has no entry for it. */
  function Seed(data: Data, name: string): Graph {
    if name in data then Graph(SeedNodes(data, name, data[name]), SeedEdges(name, data[name]))
    else Graph([], [])
  }

  lemma {:induction false} SeedNodesShape(data: Data, name: string, rels: seq<Relation>)
    ensures var ns := SeedNodes(data, name, rels);
      && |ns| == 1 + |rels| && ns[0] == RootNode(name)
      && forall i :: 0 <= i < |rels| ==> ns[i + 1] == Child(data, name, 0, rels[i].name)
    decreases |rels|
  {
    if rels != [] {
      SeedNodesShape(data, name, rels[..|rels| - 1]);
    }
  }

  lemma {:induction false} SeedEdgesShape(name: string, rels: seq<Relation>)
    ensures var es := SeedEdges(name, rels);
      |es| == |rels| && forall i :: 0 <= i < |rels| ==> es[i] == Edge(name, rels[i].name, rels[i].rel1)
    decreases |rels|
  {
    if rels != [] {
      SeedEdgesShape(name, rels[..|rels| - 1]);
    }
  }

  /**
   * With `k` relations for `name`, seeding yields the root (level 0,
   * expanded, no introducer) and then one level-1 child of `name` per
   * relation in order, and `k` edges from `name` labelled with the
   * relations; without an entry it yields nothing.
   */
  lemma SeedShape(data: Data, name: string)
    ensures var g := Seed(data, name);
      && (name !in data ==> g == Graph([], []))
      && (name in data ==>
            var rels := data[name];
            && |g.nodes| == 1 + |rels| && g.nodes[0] == RootNode(name)
            && (forall i :: 0 <= i < |rels| ==>
                  g.nodes[i + 1] == Child(data, name, 0, rels[i].name)
                  && g.nodes[i + 1].level == 1 && g.nodes[i + 1].sourceName == Some(name))
            && |g.edges| == |rels|
            && (forall i :: 0 <= i < |rels| ==> g.edges[i] == Edge(name, rels[i].name, rels[i].rel1)))
  {
    if name in data {
      var g := Seed(data, name);
      var rels := data[name];
      SeedNodesShape(data, name, rels);
      SeedEdgesShape(name, rels);
      forall j | 1 <= j <= |rels|
        ensures g.nodes[j].level == 1 && g.nodes[j].sourceName == Some(name)
      {
        assert g.nodes[j] == Child(data, name, 0, rels[j - 1].name);
      }
    }
  }

  /** A freshly seeded graph is well formed. */
  lemma SeedWellFormed(data: Data, name: string)
    ensures WellFormed(Seed(data, name))
  {
    var g := Seed(data, name);
    if name in data {
      var rels := data[name];
      SeedShape(data, name);
      LookupIsFirst(g.nodes, 0);
      assert Lookup(g.nodes, name) == Some(RootNode(name));
      forall i | 0 < i < |g.nodes|
        ensures g.nodes[i].sourceName == Some(name) && g.nodes[i].level == 1
      {
        var k := i - 1;
        assert 0 <= k < |rels| && g.nodes[k + 1] == g.nodes[i];
        assert g.nodes[k + 1] == Child(data, name, 0, rels[k].name);
      }
      forall c | c in g.nodes && c.sourceName.Some? ensures ParentOk(g.nodes, c) {
        var i :| 0 <= i < |g.nodes| && g.nodes[i] == c;
      }
      forall e | e in g.edges ensures ExpandedAt(g.nodes, e.source) {
        var i :| 0 <= i < |g.edges| && g.edges[i] == e;
      }
    }
  }
}
