/**
 * The click handler on a node's expand/collapse affordance: expand when
 * the node is not expanded, otherwise clear its flag and cascade.
 */
module Toggle {
  import opened Wrappers
  import opened Seqs
  import opened RelationGraph
  import opened Collapse
  import opened Expansion

  /**
   * A click on the affordance of the node shown for `name`. Without a node
   * or without the affordance there is nothing to click, so nothing changes.
   */
  ghost function ClickGraph(data: Data, g: Graph, name: string): Graph {
    match FindNode(g.nodes, name)
    case None => g
    case Some(j) =>
      if !Affordance(g.nodes[j]) then g
      else if !g.nodes[j].expanded then ExpandGraph(data, g, name)
      else CollapseGraph(g, name)
  }

  /** Clicking keeps the graph well formed. */
  lemma ClickPreservesWellFormed(data: Data, g: Graph, name: string)
    requires WellFormed(g)
    ensures WellFormed(ClickGraph(data, g, name))
  {
    if HasId(g.nodes, name) {
      ExpandPreservesWellFormed(data, g, name);
      CollapsePreservesWellFormed(g, name);
    }
  }

  /** The root carries no affordance, so no click changes or removes it. */
  lemma ClickKeepsRoot(data: Data, g: Graph, name: string)
    requires WellFormed(g) && |g.nodes| > 0
    ensures var r := ClickGraph(data, g, name); |r.nodes| > 0 && r.nodes[0] == g.nodes[0]
  {
    if HasId(g.nodes, name) && Affordance(Lookup(g.nodes, name).value) {
      assert FindNode(g.nodes, name).value != 0;
      ExpandFrame(data, g, name);
      CollapseKeepsRoot(g, name);
    }
  }

  /**
   * A click on the affordance flips the flag of the node it belongs to:
   * it is set by an expand and cleared by a collapse, which keeps the node
   * itself.
   */
  lemma ClickToggles(data: Data, g: Graph, name: string)
    requires WellFormed(g) && HasId(g.nodes, name) && Affordance(Lookup(g.nodes, name).value)
    ensures var t, r := Lookup(g.nodes, name).value, ClickGraph(data, g, name);
      && (!t.expanded ==> Lookup(r.nodes, name) == Some(t.(expanded := true)))
      && (t.expanded ==> Lookup(r.nodes, name) == Some(t.(expanded := false)))
  {
    var t := Lookup(g.nodes, name).value;
    if !t.expanded {
      ExpandLookup(data, g, name, name);
    } else {
      CollapseKeepsTarget(g, name);
    }
  }

  /** Expand flags the node `name` finds, then appends children of `name` with ids not shown before and edges from `name`. */
  lemma ExpandParts(data: Data, g: Graph, name: string)
    requires HasId(g.nodes, name)
    ensures var r := ExpandGraph(data, g, name);
      && |g.nodes| <= |r.nodes| && r.nodes[..|g.nodes|] == SetFlag(g.nodes, name, true)
      && (forall i :: |g.nodes| <= i < |r.nodes| ==> r.nodes[i].sourceName == Some(name) && !HasId(g.nodes, r.nodes[i].id))
      && |g.edges| <= |r.edges| && r.edges[..|g.edges|] == g.edges
      && (forall i :: |g.edges| <= i < |r.edges| ==> r.edges[i].source == name)
  {
    var flagged := Graph(SetFlag(g.nodes, name, true), g.edges);
    if name in data {
      var level := Lookup(g.nodes, name).value.level;
      MergeNodes(data, flagged, name, level, data[name]);
      MergeEdges(data, flagged, name, level, data[name]);
      forall x: string ensures HasId(flagged.nodes, x) == HasId(g.nodes, x) {
        SameIdsSameFind(g.nodes, flagged.nodes, x);
      }
    }
  }

  /**
   * Collapsing `name` right after nodes introduced by it with ids not shown
   * before were appended removes exactly those nodes, and reaches no name
   * that an expanded node of the old list carries.
   */
  lemma CollapseUndoesAppend(nodes: seq<Node>, added: seq<Node>, name: string)
    requires ParentsOk(nodes) && !ExpandedAt(nodes, name)
    requires forall c :: c in added ==> c.sourceName == Some(name) && !HasId(nodes, c.id)
    ensures Keep(nodes + added, Cascade(nodes + added, name)) == nodes
    ensures forall x :: x in Cascade(nodes + added, name) ==> !ExpandedAt(nodes, x)
  {
    var all := nodes + added;
    var q := {name} + set c | c in added :: c.id;
    forall c | c in nodes ensures !HangsOff(c, q) {
      if c.sourceName.Some? {
        assert ParentOk(nodes, c);
      }
    }
    ClosureLeast(all, {name}, q);
    ClosureClosed(all, {name});
    var removed := Cascade(all, name);
    KeepAppend(nodes, added, removed);
    forall c | c in nodes ensures !HangsOff(c, removed) {
      if c.sourceName.Some? {
        assert ParentOk(nodes, c);
      }
    }
    FilterAll(nodes, KeepsNode(removed));
    FilterNone(added, KeepsNode(removed));
  }

  /** After an expand of a collapsed node, clearing its flag again gives back the old nodes followed by the new ones. */
  lemma ExpandThenUnflag(data: Data, g: Graph, name: string)
    requires HasId(g.nodes, name) && !Lookup(g.nodes, name).value.expanded
    ensures var r := ExpandGraph(data, g, name);
      && FindNode(r.nodes, name) == FindNode(g.nodes, name) && |g.nodes| <= |r.nodes|
      && SetFlag(r.nodes, name, false) == g.nodes + r.nodes[|g.nodes|..]
  {
    var r := ExpandGraph(data, g, name);
    ExpandParts(data, g, name);
    var flagged := SetFlag(g.nodes, name, true);
    var added := r.nodes[|g.nodes|..];
    assert r.nodes == flagged + added;
    SetFlagRestore(g.nodes, name, true);
    SetFlagAppend(flagged, added, name, false);
    assert forall k :: 0 <= k < |g.nodes| ==> flagged[k].id == g.nodes[k].id;
    SameIdsSameFind(g.nodes, flagged, name);
  }

  /**
   * Round trip: on a well-formed graph, a click that expands a node and a
   * second click on the same node restore exactly the nodes and edges
   * from before.
   */
  lemma ClickRoundTrip(data: Data, g: Graph, name: string)
    requires WellFormed(g) && HasId(g.nodes, name)
    requires Affordance(Lookup(g.nodes, name).value) && !Lookup(g.nodes, name).value.expanded
    ensures ClickGraph(data, ClickGraph(data, g, name), name) == g
  {
    var j := FindNode(g.nodes, name).value;
    var g1 := ExpandGraph(data, g, name);
    assert ClickGraph(data, g, name) == g1;
    ExpandThenUnflag(data, g, name);
    ExpandFrame(data, g, name);
    assert g1.nodes[j] == g.nodes[j].(expanded := true);
    CollapseAfterExpand(data, g, name, g1);
  }

  /** Collapsing a node right after expanding it restores the graph from before the expand. */
  lemma CollapseAfterExpand(data: Data, g: Graph, name: string, g1: Graph)
    requires WellFormed(g) && HasId(g.nodes, name) && !Lookup(g.nodes, name).value.expanded
    requires g1 == ExpandGraph(data, g, name) && HasId(g1.nodes, name)
    ensures CollapseGraph(g1, name) == g
  {
    ExpandParts(data, g, name);
    ExpandThenUnflag(data, g, name);
    var newNodes := g1.nodes[|g.nodes|..];
    var newEdges := g1.edges[|g.edges|..];
    forall c | c in newNodes ensures c.sourceName == Some(name) && !HasId(g.nodes, c.id) {
      var i :| 0 <= i < |newNodes| && newNodes[i] == c;
      assert g1.nodes[|g.nodes| + i] == c;
    }
    forall e | e in newEdges ensures e.source == name {
      var i :| 0 <= i < |newEdges| && newEdges[i] == e;
      assert g1.edges[|g.edges| + i] == e;
    }
    assert g1.edges == g.edges + newEdges;
    CollapseUndoesAppendGraph(g, g1, name, newNodes, newEdges);
  }

  /**
   * If `g1` is `g` with the flag of `name` set and with children of `name`
   * under new ids and edges from `name` appended, collapsing `name` in `g1`
   * gives back `g`.
   */
  lemma CollapseUndoesAppendGraph(g: Graph, g1: Graph, name: string, newNodes: seq<Node>, newEdges: seq<Edge>)
    requires WellFormed(g) && HasId(g.nodes, name) && !Lookup(g.nodes, name).value.expanded
    requires HasId(g1.nodes, name) && SetFlag(g1.nodes, name, false) == g.nodes + newNodes
    requires g1.edges == g.edges + newEdges
    requires forall c :: c in newNodes ==> c.sourceName == Some(name) && !HasId(g.nodes, c.id)
    requires forall e :: e in newEdges ==> e.source == name
    ensures CollapseGraph(g1, name) == g
  {
    var nodes2 := SetFlag(g1.nodes, name, false);
    CollapseUndoesAppend(g.nodes, newNodes, name);
    var removed := Removed(g1, name);
    ClosureClosed(nodes2, {name});
    KeepEdgesUndoesAppend(g.nodes, g.edges, newEdges, removed);
  }

  /** Dropping the edges that leave a set of names that no expanded node carries keeps every old edge and none of the new ones. */
  lemma KeepEdgesUndoesAppend(nodes: seq<Node>, edges: seq<Edge>, added: seq<Edge>, removed: set<string>)
    requires EdgesOk(nodes, edges) && forall x :: x in removed ==> !ExpandedAt(nodes, x)
    requires forall e :: e in added ==> e.source in removed
    ensures KeepEdges(edges + added, removed) == edges
  {
    FilterAppend(edges, added, KeepsEdge(removed));
    FilterAll(edges, KeepsEdge(removed));
    FilterNone(added, KeepsEdge(removed));
  }
}
