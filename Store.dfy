/**
 * The mutable state behind one rendered relation graph: the dataset it was
 * built from and the `nodes` and `edges` arrays that seeding, expanding and
 * collapsing update in place.
 */
module Store {
  import opened Wrappers
  import opened RelationGraph
  import opened Seeding
  import opened Collapse
  import opened Expansion
  import opened Toggle

  /** `nodes.find(e => e.id === id)`, as the index of the node it returns. */
  method FindIndex(nodes: seq<Node>, id: string) returns (r: Option<nat>)
    ensures r == FindNode(nodes, id)
  {
    var i := 0;
    while i < |nodes|
      invariant 0 <= i <= |nodes|
      invariant forall k :: 0 <= k < i ==> nodes[k].id != id
    {
      if nodes[i].id == id {
        return Some(i);
      }
      i := i + 1;
    }
    return None;
  }

  /** `edges.find(e => e.source === source && e.target === target)`, as whether it finds one. */
  method FindEdge(edges: seq<Edge>, source: string, target: string) returns (found: bool)
    ensures found == HasEdge(edges, source, target)
  {
    var i := 0;
    while i < |edges|
      invariant 0 <= i <= |edges|
      invariant forall k :: 0 <= k < i ==> !(edges[k].source == source && edges[k].target == target)
    {
      if edges[i].source == source && edges[i].target == target {
        return true;
      }
      i := i + 1;
    }
    return false;
  }

  class RelationStore {
    const data: Data
    var nodes: seq<Node>
    var edges: seq<Edge>

    ghost function Shown(): Graph
      reads this
    {
      Graph(nodes, edges)
    }

    ghost predicate Valid()
      reads this
    {
      WellFormed(Shown())
    }

    /** Nothing is shown before a search. */
    constructor (data: Data)
      ensures this.data == data && nodes == [] && edges == [] && Valid()
    {
      this.data := data;
      nodes := [];
      edges := [];
    }

    /**
     * A new search for `name`: the root, then a level-1 node and an edge
     * pushed for every relation of `name`; nothing when `name` has no entry.
     */
    method Reset(name: string)
      modifies this
      ensures Shown() == Seed(data, name) && Valid()
    {
      if name in data {
        var rels := data[name];
        nodes := [RootNode(name)];
        edges := [];
        for i := 0 to |rels|
          invariant nodes == SeedNodes(data, name, rels[..i])
          invariant edges == SeedEdges(name, rels[..i])
        {
          assert rels[..i + 1][..i] == rels[..i];
          var d := rels[i];
          nodes := nodes + [Child(data, name, 0, d.name)];
          edges := edges + [Edge(name, d.name, d.rel1)];
        }
        assert rels[..|rels|] == rels;
      } else {
        nodes := [];
        edges := [];
      }
      SeedWellFormed(data, name);
    }

    /**
     * The expand branch: flag the node `name` finds, then for every relation
     * of `name` push a child unless its id is shown and an edge unless an
     * edge with the same source and target is shown.
     */
    method Expand(name: string)
      requires Valid() && HasId(nodes, name)
      modifies this
      ensures Shown() == ExpandGraph(data, old(Shown()), name) && Valid()
    {
      ghost var g0 := Shown();
      var j := FindIndex(nodes, name);
      var model := nodes[j.value];
      nodes := nodes[j.value := model.(expanded := true)];
      if name in data {
        var rels := data[name];
        ghost var flagged := Shown();
        for i := 0 to |rels|
          invariant Shown() == Merge(data, flagged, name, model.level, rels[..i])
        {
          assert rels[..i + 1][..i] == rels[..i];
          var d := rels[i];
          var shown := FindIndex(nodes, d.name);
          if shown.None? {
            nodes := nodes + [Child(data, name, model.level, d.name)];
          }
          var linked := FindEdge(edges, name, d.name);
          if !linked {
            edges := edges + [Edge(name, d.name, d.rel1)];
          }
        }
        assert rels[..|rels|] == rels;
      }
      ExpandPreservesWellFormed(data, g0, name);
    }

    /** The collapse branch: clear the flag of the node `name` finds, then run `nodeCollapse`. */
    method Collapse(name: string)
      requires Valid() && HasId(nodes, name)
      modifies this
      ensures Shown() == CollapseGraph(old(Shown()), name) && Valid()
    {
      CollapsePreservesWellFormed(Shown(), name);
      var j := FindIndex(nodes, name);
      nodes := nodes[j.value := nodes[j.value].(expanded := false)];
      var ns, es := NodeCollapse(nodes, edges, name);
      nodes, edges := ns, es;
    }

    /**
     * A click on the node shown for `name`: nothing unless the node carries
     * the expand/collapse affordance; otherwise expand it when it is not
     * expanded and collapse it when it is.
     */
    method Click(name: string)
      requires Valid()
      modifies this
      ensures Shown() == ClickGraph(data, old(Shown()), name) && Valid()
    {
      ClickPreservesWellFormed(data, Shown(), name);
      var j := FindIndex(nodes, name);
      if j.None? {
        return;
      }
      var model := nodes[j.value];
      if !Affordance(model) {
        return;
      }
      if !model.expanded {
        Expand(name);
      } else {
        Collapse(name);
      }
    }
  }
}
