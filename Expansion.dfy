/**
 * Expanding a node: set its flag, then merge its relations from the
 * dataset into the visible graph, adding a node only for an id not yet
 * shown and an edge only for a (source, target) pair not yet shown.
 */
module Expansion {
  import opened Wrappers
  import opened RelationGraph

  /** One iteration of `data[name].forEach(d => ...)`. */
  function MergeOne(data: Data, g: Graph, name: string, level: nat, d: Relation): Graph {
    Graph(
      if HasId(g.nodes, d.name) then g.nodes else g.nodes + [Child(data, name, level, d.name)],
      if HasEdge(g.edges, name, d.name) then g.edges else g.edges + [Edge(name, d.name, d.rel1)])
  }

  /** The whole `forEach` over `rels`, in order. */
  function Merge(data: Data, g: Graph, name: string, level: nat, rels: seq<Relation>): Graph
    decreases |rels|
  {
    if rels == [] then g
    else MergeOne(data, Merge(data, g, name, level, rels[..|rels| - 1]), name, level, rels[|rels| - 1])
  }

  /** The expand branch of the click handler on the node that `name` finds. */
  function ExpandGraph(data: Data, g: Graph, name: string): Graph
    requires HasId(g.nodes, name)
  {
    var flagged := Graph(SetFlag(g.nodes, name, true), g.edges);
    if name in data then Merge(data, flagged, name, Lookup(g.nodes, name).value.level, data[name])
    else flagged
  }

  function Names(rels: seq<Relation>): set<string> {
    set d | d in rels :: d.name
  }

  /**
   * Merge only appends nodes. Each appended node is the child of `name`
   * for a related name that had no node before, and no two appended nodes
   * share an id.
   */
  lemma {:induction false} MergeNodes(data: Data, g: Graph, name: string, level: nat, rels: seq<Relation>)
    ensures var r := Merge(data, g, name, level, rels);
      && g.nodes <= r.nodes
      && (forall i :: |g.nodes| <= i < |r.nodes| ==>
            r.nodes[i] == Child(data, name, level, r.nodes[i].id)
            && r.nodes[i].id in Names(rels) && !HasId(g.nodes, r.nodes[i].id))
      && (forall i, k :: |g.nodes| <= i < k < |r.nodes| ==> r.nodes[i].id != r.nodes[k].id)
    decreases |rels|
  {
    if rels != [] {
      var rels' := rels[..|rels| - 1];
      var d := rels[|rels| - 1];
      MergeNodes(data, g, name, level, rels');
      var m := Merge(data, g, name, level, rels');
      var r := Merge(data, g, name, level, rels);
      assert Names(rels') <= Names(rels);
      if !HasId(m.nodes, d.name) {
        assert r.nodes == m.nodes + [Child(data, name, level, d.name)];
        forall i | 0 <= i < |g.nodes| ensures g.nodes[i].id != d.name {
          assert g.nodes[i] == m.nodes[i];
        }
        forall i | |g.nodes| <= i < |m.nodes| ensures m.nodes[i].id != d.name {
        }
      }
    }
  }

  /**
   * Merge only appends edges, never relabels one, and appends an edge from
   * `name` for a related pair only when no edge joins that pair yet.
   */
  lemma {:induction false} MergeEdges(data: Data, g: Graph, name: string, level: nat, rels: seq<Relation>)
    ensures var r := Merge(data, g, name, level, rels);
      && g.edges <= r.edges
      && (forall i :: |g.edges| <= i < |r.edges| ==>
            r.edges[i].source == name
            && Relation(r.edges[i].target, r.edges[i].relation) in rels
            && !HasEdge(g.edges, name, r.edges[i].target))
      && (forall i, k :: |g.edges| <= i < k < |r.edges| ==> r.edges[i].target != r.edges[k].target)
    decreases |rels|
  {
    if rels != [] {
      var rels' := rels[..|rels| - 1];
      var d := rels[|rels| - 1];
      MergeEdges(data, g, name, level, rels');
      var m := Merge(data, g, name, level, rels');
      if !HasEdge(m.edges, name, d.name) {
        forall e | e in g.edges ensures !(e.source == name && e.target == d.name) {
          assert e in m.edges by {
            var i :| 0 <= i < |g.edges| && g.edges[i] == e;
            assert m.edges[i] == e;
          }
        }
        forall i | |g.edges| <= i < |m.edges| ensures m.edges[i].target != d.name {
          assert m.edges[i] in m.edges;
        }
      }
    }
  }

  /** After the merge every related name has a node and an edge from `name`. */
  lemma {:induction false} MergeCovers(data: Data, g: Graph, name: string, level: nat, rels: seq<Relation>)
    ensures var r := Merge(data, g, name, level, rels);
      forall d :: d in rels ==> HasId(r.nodes, d.name) && HasEdge(r.edges, name, d.name)
    decreases |rels|
  {
    if rels != [] {
      var rels' := rels[..|rels| - 1];
      var last := rels[|rels| - 1];
      MergeCovers(data, g, name, level, rels');
      var m := Merge(data, g, name, level, rels');
      var r := Merge(data, g, name, level, rels);
      forall d | d in rels ensures HasId(r.nodes, d.name) && HasEdge(r.edges, name, d.name) {
        if d != last {
          assert d in rels';
          LookupAppend(m.nodes, r.nodes[|m.nodes|..], d.name);
          assert r.nodes == m.nodes + r.nodes[|m.nodes|..];
          var e :| e in m.edges && e.source == name && e.target == d.name;
          assert e in r.edges;
        } else {
          assert Child(data, name, level, d.name) in r.nodes || HasId(m.nodes, d.name);
          if HasId(m.nodes, d.name) {
            LookupAppend(m.nodes, r.nodes[|m.nodes|..], d.name);
            assert r.nodes == m.nodes + r.nodes[|m.nodes|..];
          } else {
            assert r.nodes[|r.nodes| - 1].id == d.name;
          }
          if HasEdge(m.edges, name, d.name) {
            var e :| e in m.edges && e.source == name && e.target == d.name;
            assert e in r.edges;
          } else {
            assert r.edges[|r.edges| - 1] == Edge(name, d.name, d.rel1);
          }
        }
      }
    }
  }

  /** `rels[k]` is the first entry of `rels` naming its person. */
  predicate FirstNaming(rels: seq<Relation>, k: int) {
    0 <= k < |rels| && forall k' :: 0 <= k' < k ==> rels[k'].name != rels[k].name
  }

  /** `e` carries the relation of the first entry of `rels` naming its target. */
  ghost predicate LabelledByFirst(rels: seq<Relation>, e: Edge) {
    exists k :: FirstNaming(rels, k) && rels[k] == Relation(e.target, e.relation)
  }

  /**
   * Edges are deduplicated on source and target only, so an edge the merge
   * adds carries the relation of the FIRST entry of `rels` naming its target.
   */
  lemma {:induction false} MergeFirstLabel(data: Data, g: Graph, name: string, level: nat, rels: seq<Relation>)
    ensures var r := Merge(data, g, name, level, rels);
      forall i :: |g.edges| <= i < |r.edges| ==> LabelledByFirst(rels, r.edges[i])
    decreases |rels|
  {
    if rels != [] {
      var rels' := rels[..|rels| - 1];
      MergeFirstLabel(data, g, name, level, rels');
      assert var m := Merge(data, g, name, level, rels');
        forall i :: |g.edges| <= i < |m.edges| ==> LabelledByFirst(rels', m.edges[i]);
      var m := Merge(data, g, name, level, rels');
      forall i | |g.edges| <= i < |m.edges| ensures LabelledByFirst(rels, m.edges[i]) {
        LabelledPrefix(rels, |rels| - 1, m.edges[i]);
      }
      MergeLastEdge(data, g, name, level, rels);
    }
  }

  /** A first entry of a prefix is a first entry of the whole list. */
  lemma LabelledPrefix(rels: seq<Relation>, n: nat, e: Edge)
    requires n <= |rels| && LabelledByFirst(rels[..n], e)
    ensures LabelledByFirst(rels, e)
  {
    var k :| FirstNaming(rels[..n], k) && rels[..n][k] == Relation(e.target, e.relation);
    assert forall k' :: 0 <= k' <= k ==> rels[k'] == rels[..n][k'];
    assert FirstNaming(rels, k);
  }

  /**
   * The last entry of `rels` either adds no edge or adds one edge from
   * `name`, and then no earlier entry names its target.
   */
  lemma MergeLastEdge(data: Data, g: Graph, name: string, level: nat, rels: seq<Relation>)
    requires rels != []
    ensures var m, r := Merge(data, g, name, level, rels[..|rels| - 1]), Merge(data, g, name, level, rels);
      || r.edges == m.edges
      || (r.edges == m.edges + [r.edges[|m.edges|]] && LabelledByFirst(rels, r.edges[|m.edges|]))
  {
    var rels' := rels[..|rels| - 1];
    var d := rels[|rels| - 1];
    var m := Merge(data, g, name, level, rels');
    if !HasEdge(m.edges, name, d.name) {
      MergeCovers(data, g, name, level, rels');
      forall k' | 0 <= k' < |rels| - 1 ensures rels[k'].name != d.name {
        assert rels[k'] == rels'[k'] && rels'[k'] in rels';
      }
      assert FirstNaming(rels, |rels| - 1);
    }
  }

  /** A merge that finds every related name and edge already present changes nothing. */
  lemma {:induction false} MergeSettled(data: Data, g: Graph, name: string, level: nat, rels: seq<Relation>)
    requires forall d :: d in rels ==> HasId(g.nodes, d.name) && HasEdge(g.edges, name, d.name)
    ensures Merge(data, g, name, level, rels) == g
    decreases |rels|
  {
    if rels != [] {
      MergeSettled(data, g, name, level, rels[..|rels| - 1]);
      assert rels[|rels| - 1] in rels;
    }
  }

  /** Re-running the merge loop adds nothing. */
  lemma MergeIdempotent(data: Data, g: Graph, name: string, level: nat, rels: seq<Relation>)
    ensures var r := Merge(data, g, name, level, rels);
      Merge(data, r, name, level, rels) == r
  {
    MergeCovers(data, g, name, level, rels);
    MergeSettled(data, Merge(data, g, name, level, rels), name, level, rels);
  }

  /**
   * Expand sets the flag of the node `name` finds and leaves every other
   * existing node and every existing edge as it was; without a dataset
   * entry for `name` only the flag changes.
   */
  lemma ExpandFrame(data: Data, g: Graph, name: string)
    requires HasId(g.nodes, name)
    ensures var r, j := ExpandGraph(data, g, name), FindNode(g.nodes, name).value;
      && |g.nodes| <= |r.nodes|
      && r.nodes[j] == g.nodes[j].(expanded := true)
      && (forall i :: 0 <= i < |g.nodes| && i != j ==> r.nodes[i] == g.nodes[i])
      && g.edges <= r.edges
      && (name !in data ==> r == Graph(SetFlag(g.nodes, name, true), g.edges))
  {
    var flagged := Graph(SetFlag(g.nodes, name, true), g.edges);
    if name in data {
      MergeNodes(data, flagged, name, Lookup(g.nodes, name).value.level, data[name]);
      MergeEdges(data, flagged, name, Lookup(g.nodes, name).value.level, data[name]);
    }
  }

  /**
   * Expand adds, for every related name without a node, exactly one child
   * of `name` one level below it; every related name then has a node and
   * an edge from `name`.
   */
  lemma ExpandAddsChildren(data: Data, g: Graph, name: string)
    requires HasId(g.nodes, name) && name in data
    ensures var r, level := ExpandGraph(data, g, name), Lookup(g.nodes, name).value.level;
      && (forall i :: |g.nodes| <= i < |r.nodes| ==>
            r.nodes[i] == Child(data, name, level, r.nodes[i].id)
            && r.nodes[i].id in Names(data[name]) && !HasId(g.nodes, r.nodes[i].id))
      && (forall d :: d in data[name] ==> HasId(r.nodes, d.name) && HasEdge(r.edges, name, d.name))
  {
    var flagged := Graph(SetFlag(g.nodes, name, true), g.edges);
    var level := Lookup(g.nodes, name).value.level;
    MergeNodes(data, flagged, name, level, data[name]);
    MergeCovers(data, flagged, name, level, data[name]);
    forall x: string ensures HasId(flagged.nodes, x) == HasId(g.nodes, x) {
      LookupSetFlag(g.nodes, name, true, x);
    }
  }

  /** Expand keeps ids unique and (source, target) pairs of edges unique. */
  lemma ExpandKeepsUnique(data: Data, g: Graph, name: string)
    requires HasId(g.nodes, name)
    ensures UniqueIds(g.nodes) ==> UniqueIds(ExpandGraph(data, g, name).nodes)
    ensures UniqueEdgeKeys(g.edges) ==> UniqueEdgeKeys(ExpandGraph(data, g, name).edges)
  {
    var flagged := Graph(SetFlag(g.nodes, name, true), g.edges);
    var r := ExpandGraph(data, g, name);
    if name in data {
      var level := Lookup(g.nodes, name).value.level;
      MergeNodes(data, flagged, name, level, data[name]);
      MergeEdges(data, flagged, name, level, data[name]);
      forall i, k | 0 <= i < |g.nodes| <= k < |r.nodes| ensures r.nodes[i].id != r.nodes[k].id {
        assert r.nodes[i].id == flagged.nodes[i].id;
        assert FindNode(flagged.nodes, r.nodes[k].id).None?;
      }
      forall i, k | 0 <= i < |g.edges| <= k < |r.edges|
        ensures r.edges[i].source != r.edges[k].source || r.edges[i].target != r.edges[k].target
      {
        assert r.edges[i] == g.edges[i] && g.edges[i] in g.edges;
      }
    }
  }

  /** Expanding twice in a row is expanding once. */
  lemma ExpandIdempotent(data: Data, g: Graph, name: string)
    requires HasId(g.nodes, name)
    ensures var r := ExpandGraph(data, g, name);
      HasId(r.nodes, name) && ExpandGraph(data, r, name) == r
  {
    var r := ExpandGraph(data, g, name);
    var j := FindNode(g.nodes, name).value;
    ExpandFrame(data, g, name);
    LookupIsFirst(r.nodes, j);
    assert SetFlag(r.nodes, name, true) == r.nodes;
    if name in data {
      MergeIdempotent(data, Graph(SetFlag(g.nodes, name, true), g.edges), name, Lookup(g.nodes, name).value.level, data[name]);
    }
  }

  /** After expand, a name that found a node finds the same node, expanded if it is `name`. */
  lemma ExpandLookup(data: Data, g: Graph, name: string, p: string)
    requires HasId(g.nodes, name) && HasId(g.nodes, p)
    ensures Lookup(ExpandGraph(data, g, name).nodes, p)
              == if p == name then Some(Lookup(g.nodes, name).value.(expanded := true)) else Lookup(g.nodes, p)
  {
    var nodes1 := SetFlag(g.nodes, name, true);
    var r := ExpandGraph(data, g, name);
    if name in data {
      MergeNodes(data, Graph(nodes1, g.edges), name, Lookup(g.nodes, name).value.level, data[name]);
    }
    var added := r.nodes[|nodes1|..];
    assert r.nodes == nodes1 + added;
    LookupSetFlag(g.nodes, name, true, p);
    LookupAppend(nodes1, added, p);
  }

  /** Every node after expand is an old node (flag aside) or a new child of `name`. */
  lemma ExpandMember(data: Data, g: Graph, name: string, c: Node) returns (c0: Node)
    requires HasId(g.nodes, name) && c in ExpandGraph(data, g, name).nodes
    ensures (c0 in g.nodes && c == c0.(expanded := c.expanded))
         || c == Child(data, name, Lookup(g.nodes, name).value.level, c.id)
  {
    var nodes1 := SetFlag(g.nodes, name, true);
    var r := ExpandGraph(data, g, name);
    ExpandFrame(data, g, name);
    if name in data {
      MergeNodes(data, Graph(nodes1, g.edges), name, Lookup(g.nodes, name).value.level, data[name]);
    }
    var i :| 0 <= i < |r.nodes| && r.nodes[i] == c;
    c0 := c;
    if i < |nodes1| {
      assert c in nodes1;
      c0 := SetFlagMember(g.nodes, name, true, c);
    }
  }

  lemma ExpandRootFirst(data: Data, g: Graph, name: string)
    requires HasId(g.nodes, name) && RootFirst(g.nodes)
    ensures RootFirst(ExpandGraph(data, g, name).nodes)
  {
    var r := ExpandGraph(data, g, name);
    ExpandFrame(data, g, name);
    forall i | 0 < i < |r.nodes| ensures r.nodes[i].sourceName.Some? {
      var c0 := ExpandMember(data, g, name, r.nodes[i]);
      if i >= |g.nodes| {
        MergeNodes(data, Graph(SetFlag(g.nodes, name, true), g.edges), name, Lookup(g.nodes, name).value.level, data[name]);
      }
    }
  }

  lemma ExpandParentsOk(data: Data, g: Graph, name: string)
    requires HasId(g.nodes, name) && ParentsOk(g.nodes)
    ensures ParentsOk(ExpandGraph(data, g, name).nodes)
  {
    var r := ExpandGraph(data, g, name);
    forall c | c in r.nodes && c.sourceName.Some? ensures ParentOk(r.nodes, c) {
      var c0 := ExpandMember(data, g, name, c);
      if c0 in g.nodes && c == c0.(expanded := c.expanded) {
        assert ParentOk(g.nodes, c0);
        ExpandLookup(data, g, name, c.sourceName.value);
      } else {
        ExpandLookup(data, g, name, name);
      }
    }
  }

  lemma ExpandEdgesOk(data: Data, g: Graph, name: string)
    requires HasId(g.nodes, name) && EdgesOk(g.nodes, g.edges)
    ensures var r := ExpandGraph(data, g, name); EdgesOk(r.nodes, r.edges)
  {
    var r := ExpandGraph(data, g, name);
    ExpandFrame(data, g, name);
    forall e | e in r.edges ensures ExpandedAt(r.nodes, e.source) {
      var i :| 0 <= i < |r.edges| && r.edges[i] == e;
      if i < |g.edges| {
        assert e in g.edges;
        ExpandLookup(data, g, name, e.source);
      } else {
        MergeEdges(data, Graph(SetFlag(g.nodes, name, true), g.edges), name, Lookup(g.nodes, name).value.level, data[name]);
        ExpandLookup(data, g, name, name);
      }
    }
  }

  /** Expand pushes only ids not shown yet, so only shallow nodes still share ids. */
  lemma ExpandDupsShallow(data: Data, g: Graph, name: string)
    requires HasId(g.nodes, name) && DupsShallow(g.nodes)
    ensures DupsShallow(ExpandGraph(data, g, name).nodes)
  {
    var flagged := Graph(SetFlag(g.nodes, name, true), g.edges);
    var r := ExpandGraph(data, g, name);
    ExpandFrame(data, g, name);
    if name in data {
      MergeNodes(data, flagged, name, Lookup(g.nodes, name).value.level, data[name]);
    }
    forall i, k | 0 <= i < k < |r.nodes| && r.nodes[i].id == r.nodes[k].id
      ensures r.nodes[i].level <= 1 && r.nodes[k].level <= 1
    {
    }
  }

  /** Expand keeps the graph well formed. */
  lemma ExpandPreservesWellFormed(data: Data, g: Graph, name: string)
    requires HasId(g.nodes, name) && WellFormed(g)
    ensures WellFormed(ExpandGraph(data, g, name))
  {
    ExpandRootFirst(data, g, name);
    ExpandParentsOk(data, g, name);
    ExpandEdgesOk(data, g, name);
    ExpandDupsShallow(data, g, name);
  }
}
